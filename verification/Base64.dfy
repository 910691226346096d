/** Base64 payloads of PEM blocks: decoding, against the encoder of section 4 of RFC 4648.

The text is read as the bytes it is made of. Whitespace is dropped wherever it stands; what remains
is taken apart into sextets and padding, and every input has exactly one answer.
*/
module Base64 {
  import opened Proto

  type Octet = n: nat | n < 256
  type Sextet = n: nat | n < 64

  datatype PemError =
    | NotBase64(byte: Octet)
    | PaddingTooLong
    | DataAfterPadding
    | OneLeftOver
    | MidGroup

  const PAD: Octet := 61

  // -- the alphabet --------------------------------------------------------------------

  function ValueOf(byte: Octet): Option<Sextet> {
    if 65 <= byte <= 90 then Some(byte - 65)
    else if 97 <= byte <= 122 then Some(byte - 97 + 26)
    else if 48 <= byte <= 57 then Some(byte - 48 + 52)
    else if byte == 43 then Some(62)
    else if byte == 47 then Some(63)
    else None
  }

  function CharOf(value: Sextet): Octet {
    if value < 26 then 65 + value
    else if value < 52 then 97 + value - 26
    else if value < 62 then 48 + value - 52
    else if value == 62 then 43
    else 47
  }

  lemma AlphabetRoundTrip(byte: Octet, value: Sextet)
    ensures ValueOf(byte) == Some(value) <==> byte == CharOf(value)
    ensures CharOf(value) != PAD
  {
  }

  /** The letters are those of table 1 of RFC 4648. */
  lemma AlphabetIs(value: Sextet)
    ensures value < 26 ==> CharOf(value) == 'A' as nat + value
    ensures 26 <= value < 52 ==> CharOf(value) == 'a' as nat + (value - 26)
    ensures 52 <= value < 62 ==> CharOf(value) == '0' as nat + (value - 52)
    ensures CharOf(62) == '+' as nat && CharOf(63) == '/' as nat && PAD == '=' as nat
  {
  }

  predicate IsSpace(byte: Octet) {
    byte == 32 || byte == 9 || byte == 10 || byte == 12 || byte == 13
  }

  function Stripped(text: seq<Octet>): seq<Octet> {
    if text == [] then []
    else
      var last := text[|text| - 1];
      Stripped(text[..|text| - 1]) + if IsSpace(last) then [] else [last]
  }

  /** Tab, line feed, form feed, carriage return and blank. */
  const WHITESPACE: set<Octet> := {9, 10, 12, 13, 32}

  /** A byte of whitespace anywhere makes no difference, and every other byte is kept in its place. */
  lemma {:induction false} StrippedAround(a: seq<Octet>, byte: Octet, b: seq<Octet>)
    ensures Stripped(a + [byte] + b)
            == if byte in WHITESPACE then Stripped(a + b) else Stripped(a) + [byte] + Stripped(b)
    decreases |b|
  {
    var text := a + [byte] + b;
    if b == [] {
      assert text[..|text| - 1] == a && a + b == a;
    } else {
      var n := |b| - 1;
      StrippedAround(a, byte, b[..n]);
      assert text[..|text| - 1] == a + [byte] + b[..n];
      assert (a + b)[..|a + b| - 1] == a + b[..n];
    }
  }

  /** A text is another with whitespace put in, anywhere and as often as wanted. */
  ghost predicate Wraps(text: seq<Octet>, plain: seq<Octet>) {
    if text == [] then plain == []
    else
      var n, last := |text| - 1, text[|text| - 1];
      || (last in WHITESPACE && Wraps(text[..n], plain))
      || (plain != [] && last == plain[|plain| - 1] && Wraps(text[..n], plain[..|plain| - 1]))
  }

  lemma LastStripped(text: seq<Octet>)
    requires text != []
    ensures var n, last := |text| - 1, text[|text| - 1];
      Stripped(text) == Stripped(text[..n]) + if last in WHITESPACE then [] else [last]
  {
    SpaceIs(text[|text| - 1]);
    hide IsSpace;
  }

  lemma SpaceIs(byte: Octet)
    ensures IsSpace(byte) <==> byte in WHITESPACE
  {
  }

  lemma {:induction false} WrappedIsStripped(text: seq<Octet>, plain: seq<Octet>)
    requires Wraps(text, plain) && forall byte :: byte in plain ==> byte !in WHITESPACE
    ensures Stripped(text) == plain
  {
    if text != [] {
      var n, last := |text| - 1, text[|text| - 1];
      LastStripped(text);
      if last in WHITESPACE && Wraps(text[..n], plain) {
        WrappedIsStripped(text[..n], plain);
      } else {
        hide Stripped, Wraps;
        assert last == plain[|plain| - 1] && last in plain;
        WrappedIsStripped(text[..n], plain[..|plain| - 1]);
        assert plain == plain[..|plain| - 1] + [last];
      }
    }
  }

  function Chars(values: seq<Sextet>): (r: seq<Octet>)
    ensures |r| == |values|
  {
    seq(|values|, i requires 0 <= i < |values| => CharOf(values[i]))
  }

  function Pads(n: nat): (r: seq<Octet>)
    ensures |r| == n
  {
    seq(n, i => PAD)
  }

  // -- sextets and bytes ---------------------------------------------------------------

  /** Sextets read as one number, the first the highest. */
  function Number(values: seq<Sextet>): nat {
    if values == [] then 0 else 64 * Number(values[..|values| - 1]) + values[|values| - 1]
  }

  /** The three low bytes of a word, highest first. */
  function First(n: nat): Octet { (n / 65536) % 256 }

  function Second(n: nat): Octet { (n / 256) % 256 }

  function Third(n: nat): Octet { n % 256 }

  function Groups(values: seq<Sextet>): seq<Octet>
    requires |values| % 4 == 0
  {
    if values == [] then [] else
      var n := |values| - 4;
      var q := Number(values[n..]);
      Groups(values[..n]) + [First(q), Second(q), Third(q)]
  }

  function LastGroup(values: seq<Sextet>): seq<Octet>
    requires |values| < 4
  {
    var q := Number(values);
    if |values| == 3 then [First(64 * q), Second(64 * q)]
    else if |values| == 2 then [First(4096 * q)]
    else []
  }

  function Full(n: nat): (r: nat)
    ensures r <= n && r % 4 == 0 && n - r == n % 4
  {
    n - n % 4
  }

  /** The bytes a run of sextets stands for. */
  function Decoded(values: seq<Sextet>): seq<Octet> {
    var n := Full(|values|);
    Groups(values[..n]) + LastGroup(values[n..])
  }

  /** Padding completes the last group. */
  predicate Agrees(values: nat, pads: nat) {
    || (values % 4 == 0 && pads == 0)
    || (values % 4 == 3 && pads == 1)
    || (values % 4 == 2 && pads == 2)
  }

  // -- what an answer must be ----------------------------------------------------------

  /** The text is these sextets and this padding, and then something that goes on neither. */
  ghost predicate Explains(s: seq<Octet>, values: seq<Sextet>, pads: nat, r: Result<seq<Octet>, PemError>) {
    var n := |values| + pads;
    && n <= |s| && pads <= 2 && s[..n] == Spelled(values, pads)
    && match r
       case Ok(bytes) => n == |s| && Agrees(|values|, pads) && bytes == Decoded(values)
       case Err(OneLeftOver) => n == |s| && |values| % 4 == 1
       case Err(MidGroup) => n == |s| && |values| % 4 != 1 && !Agrees(|values|, pads)
       case Err(NotBase64(byte)) => n < |s| && pads == 0 && s[n] == byte != PAD && ValueOf(byte) == None
       case Err(DataAfterPadding) => n < |s| && pads > 0 && s[n] != PAD
       case Err(PaddingTooLong) => n < |s| && pads == 2 && s[n] == PAD
  }

  ghost predicate Answers(s: seq<Octet>, r: Result<seq<Octet>, PemError>) {
    exists values, pads :: Explains(s, values, pads, r)
  }

  ghost function Spelled(values: seq<Sextet>, pads: nat): (r: seq<Octet>)
    ensures |r| == |values| + pads
  {
    Chars(values) + Pads(pads)
  }

  /** The whole groups are out, and the quantum holds what has been read of the next. */
  ghost predicate Reading(values: seq<Sextet>, filled: nat, out: seq<Octet>, quantum: nat) {
    var n := Full(|values|);
    filled == |values| - n && out == Groups(values[..n]) && quantum == Number(values[n..])
  }

  method Decode(text: seq<Octet>) returns (r: Result<seq<Octet>, PemError>)
    ensures Answers(Stripped(text), r)
  {
    hide First, Second, Third, CharOf, ValueOf, Stripped, Reading, Spelled, Explains;
    var out: seq<Octet> := [];
    var quantum: nat := 0;
    var filled := 0;
    var pad := 0;
    ghost var values: seq<Sextet> := [];
    ghost var s := Stripped(text);
    var i := 0;
    Nothing(text);
    while i < |text|
      invariant 0 <= i <= |text| && 0 <= pad <= 2
      invariant Stripped(text[..i]) == Spelled(values, pad)
      invariant filled == |values| % 4 && Reading(values, filled, out, quantum)
    {
      var byte := text[i];
      StrippedMore(text, i);
      i := i + 1;
      if IsSpace(byte) {
        continue;
      }
      if byte == PAD {
        pad := pad + 1;
        if pad > 2 {
          Stops(s, values, 2, byte, PaddingTooLong);
          return Err(PaddingTooLong);
        }
        SpelledPad(values, pad - 1);
        continue;
      }
      if pad > 0 {
        Stops(s, values, pad, byte, DataAfterPadding);
        return Err(DataAfterPadding);
      }
      if ValueOf(byte) == None {
        Stops(s, values, pad, byte, NotBase64(byte));
        return Err(NotBase64(byte));
      }
      var value := ValueOf(byte).value;
      SpelledValue(values, byte, value);
      Extends(values, filled, out, quantum, value);
      values := values + [value];
      quantum := quantum * 64 + value;
      filled := filled + 1;
      if filled == 4 {
        out := out + [First(quantum), Second(quantum), Third(quantum)];
        quantum := 0;
        filled := 0;
      }
    }
    assert text[..i] == text;
    if filled == 0 && pad == 0 {
      r := Ok(out);
    } else if filled == 3 && pad == 1 {
      r := Ok(out + [First(quantum * 64), Second(quantum * 64)]);
    } else if filled == 2 && pad == 2 {
      r := Ok(out + [First(quantum * 4096)]);
    } else if filled == 1 {
      r := Err(OneLeftOver);
    } else {
      r := Err(MidGroup);
    }
    Ending(values, pad, filled, out, quantum, r);
    assert Explains(s, values, pad, r);
  }

  lemma Nothing(text: seq<Octet>)
    ensures Stripped(text[..0]) == Spelled([], 0)
    ensures Reading([], 0, [], 0)
  {
  }

  lemma SpelledPad(values: seq<Sextet>, pads: nat)
    ensures Spelled(values, pads + 1) == Spelled(values, pads) + [PAD]
  {
    assert Pads(pads + 1) == Pads(pads) + [PAD];
  }

  lemma SpelledValue(values: seq<Sextet>, byte: Octet, value: Sextet)
    requires ValueOf(byte) == Some(value)
    ensures Spelled(values + [value], 0) == Spelled(values, 0) + [byte]
  {
    hide ValueOf, CharOf;
    AlphabetRoundTrip(byte, value);
    assert Chars(values + [value]) == Chars(values) + [byte];
  }

  /** A byte that cannot follow what was read decides the answer. */
  lemma Stops(s: seq<Octet>, values: seq<Sextet>, pads: nat, byte: Octet, error: PemError)
    requires pads <= 2 && Spelled(values, pads) + [byte] <= s
    requires match error
             case NotBase64(b) => pads == 0 && b == byte != PAD && ValueOf(byte) == None
             case DataAfterPadding => pads > 0 && byte != PAD
             case PaddingTooLong => pads == 2 && byte == PAD
             case _ => false
    ensures Explains(s, values, pads, Err(error))
  {
    hide ValueOf;
    var n := |values| + pads;
    assert s[..n] == (Spelled(values, pads) + [byte])[..n] && s[n] == byte;
  }

  lemma Ending(values: seq<Sextet>, pads: nat, filled: nat, out: seq<Octet>, quantum: nat,
               r: Result<seq<Octet>, PemError>)
    requires pads <= 2 && filled == |values| % 4 && Reading(values, filled, out, quantum)
    requires r == if filled == 0 && pads == 0 then Ok(out)
                  else if filled == 3 && pads == 1 then Ok(out + [First(quantum * 64), Second(quantum * 64)])
                  else if filled == 2 && pads == 2 then Ok(out + [First(quantum * 4096)])
                  else if filled == 1 then Err(OneLeftOver)
                  else Err(MidGroup)
    ensures Explains(Spelled(values, pads), values, pads, r)
  {
    hide First, Second, Third, Groups, Number;
    var s := Spelled(values, pads);
    assert s[..|s|] == s;
    var last := values[Full(|values|)..];
    assert filled == 0 ==> LastGroup(last) == [] && out + [] == out;
  }

  lemma Extends(values: seq<Sextet>, filled: nat, out: seq<Octet>, quantum: nat, value: Sextet)
    requires filled == |values| % 4 && Reading(values, filled, out, quantum)
    ensures var more, q := values + [value], quantum * 64 + value;
            if filled < 3 then
              |more| % 4 == filled + 1 && Reading(more, filled + 1, out, q)
            else
              |more| % 4 == 0 && Reading(more, 0, out + [First(q), Second(q), Third(q)], 0)
  {
    hide First, Second, Third, Groups, Number;
    var more, n := values + [value], Full(|values|);
    NumberMore(values[n..], value);
    assert more[n..] == values[n..] + [value] && more[..n] == values[..n];
    if filled == 3 {
      GroupsMore(more, n);
      NumberOfNothing();
      assert more[..|more|] == more && more[|more|..] == [];
    }
  }

  lemma NumberMore(values: seq<Sextet>, value: Sextet)
    ensures Number(values + [value]) == Number(values) * 64 + value
  {
    assert (values + [value])[..|values|] == values;
  }

  lemma NumberOfNothing()
    ensures Number([]) == 0
  {
  }

  lemma GroupsMore(values: seq<Sextet>, n: nat)
    requires |values| % 4 == 0 && |values| == n + 4 && n % 4 == 0
    ensures Groups(values)
            == Groups(values[..n]) + [First(Number(values[n..])), Second(Number(values[n..])), Third(Number(values[n..]))]
  {
    hide First, Second, Third, Number;
  }

  lemma StrippedMore(text: seq<Octet>, i: nat)
    requires i < |text|
    ensures Stripped(text[..i + 1]) == Stripped(text[..i]) + (if IsSpace(text[i]) then [] else [text[i]])
    ensures Stripped(text[..i + 1]) <= Stripped(text)
  {
    assert text[..i + 1][..i] == text[..i];
    StrippedPrefix(text, i + 1);
  }

  lemma {:induction false} StrippedPrefix(text: seq<Octet>, i: nat)
    requires i <= |text|
    ensures Stripped(text[..i]) <= Stripped(text)
    decreases |text| - i
  {
    if i < |text| {
      assert text[..i + 1][..i] == text[..i];
      StrippedPrefix(text, i + 1);
    } else {
      assert text[..i] == text;
    }
  }

  // -- one answer ----------------------------------------------------------------------

  lemma SpelledAt(s: seq<Octet>, values: seq<Sextet>, pads: nat, k: nat)
    requires |values| + pads <= |s| && s[..|values| + pads] == Spelled(values, pads) && k < |values| + pads
    ensures if k < |values| then s[k] == CharOf(values[k]) else s[k] == PAD
  {
    assert s[k] == s[..|values| + pads][k];
  }

  /** Fewer sextets cannot explain the same text: the next byte would have been one. */
  lemma NotFewer(s: seq<Octet>, v: seq<Sextet>, p: nat, r: Result<seq<Octet>, PemError>, w: seq<Sextet>, q: nat)
    requires Explains(s, v, p, r)
    requires |w| + q <= |s| && s[..|w| + q] == Spelled(w, q)
    ensures |w| <= |v|
  {
    hide CharOf, ValueOf, Spelled, Decoded;
    if |v| < |w| {
      SpelledAt(s, w, q, |v|);
      AlphabetRoundTrip(s[|v|], w[|v|]);
      if p > 0 {
        SpelledAt(s, v, p, |v|);
      }
    }
  }

  /** Less padding cannot explain the same text either. */
  lemma NotLess(s: seq<Octet>, v: seq<Sextet>, p: nat, r: Result<seq<Octet>, PemError>, w: seq<Sextet>, q: nat)
    requires Explains(s, v, p, r) && |v| == |w|
    requires |w| + q <= |s| && s[..|w| + q] == Spelled(w, q) && q <= 2
    ensures q <= p
  {
    hide CharOf, ValueOf, Spelled, Decoded;
    if p < q {
      SpelledAt(s, w, q, |v| + p);
    }
  }

  /** Whatever the input, one answer is right and no other. */
  lemma OneAnswer(s: seq<Octet>, r: Result<seq<Octet>, PemError>, t: Result<seq<Octet>, PemError>)
    requires Answers(s, r) && Answers(s, t)
    ensures r == t
  {
    hide CharOf, ValueOf, Spelled, Decoded;
    var v, p :| Explains(s, v, p, r);
    var w, q :| Explains(s, w, q, t);
    NotFewer(s, v, p, r, w, q);
    NotFewer(s, w, q, t, v, p);
    NotLess(s, v, p, r, w, q);
    NotLess(s, w, q, t, v, p);
    forall k | 0 <= k < |v|
      ensures v[k] == w[k]
    {
      SpelledAt(s, v, p, k);
      SpelledAt(s, w, q, k);
      AlphabetRoundTrip(s[k], v[k]);
      AlphabetRoundTrip(s[k], w[k]);
    }
    assert v == w;
  }

  // -- the encoder ---------------------------------------------------------------------

  function Four(x: Octet, y: Octet, z: Octet): seq<Sextet> {
    [x / 4, x % 4 * 16 + y / 16, y % 16 * 4 + z / 64, z % 64]
  }

  function GroupsOf(bytes: seq<Octet>): seq<Sextet>
    requires |bytes| % 3 == 0
  {
    if bytes == [] then [] else
      var n := |bytes| - 3;
      GroupsOf(bytes[..n]) + Four(bytes[n], bytes[n + 1], bytes[n + 2])
  }

  function LastOf(bytes: seq<Octet>): seq<Sextet>
    requires |bytes| < 3
  {
    if |bytes| == 2 then Four(bytes[0], bytes[1], 0)[..3]
    else if |bytes| == 1 then Four(bytes[0], 0, 0)[..2]
    else []
  }

  function FullOf(n: nat): (r: nat)
    ensures r <= n && r % 3 == 0 && n - r == n % 3
  {
    n - n % 3
  }

  function Sextets(bytes: seq<Octet>): seq<Sextet> {
    var n := FullOf(|bytes|);
    GroupsOf(bytes[..n]) + LastOf(bytes[n..])
  }

  /** Three bytes are four characters; what is left over is filled with zero bits and padded. */
  function Encode(bytes: seq<Octet>): seq<Octet> {
    var short := |bytes| % 3;
    Chars(Sextets(bytes)) + Pads(if short == 0 then 0 else 3 - short)
  }

  lemma NumberOfFour(a: Sextet, b: Sextet, c: Sextet, d: Sextet)
    ensures Number([a, b, c, d]) == 262144 * a + 4096 * b + 64 * c + d
    ensures Number([a, b, c]) == 4096 * a + 64 * b + c
    ensures Number([a, b]) == 64 * a + b
  {
    assert [a, b, c, d][..3] == [a, b, c] && [a, b, c][..2] == [a, b] && [a, b][..1] == [a] && [a][..0] == [];
    assert Number([a]) == 64 * Number([]) + a;
    assert Number([a, b]) == 64 * Number([a]) + b;
    assert Number([a, b, c]) == 64 * Number([a, b]) + c;
  }

  lemma FourIsThree(x: Octet, y: Octet, z: Octet)
    ensures var q := Number(Four(x, y, z)); First(q) == x && Second(q) == y && Third(q) == z
  {
    hide Number;
    NumberOfFour(x / 4, x % 4 * 16 + y / 16, y % 16 * 4 + z / 64, z % 64);
    ThreeBytes(x, y, z);
    hide First, Second, Third;
    assert Number(Four(x, y, z)) == 65536 * x + 256 * y + z;
  }

  lemma ThreeIsTwo(x: Octet, y: Octet)
    ensures var q := 64 * Number(Four(x, y, 0)[..3]); First(q) == x && Second(q) == y
  {
    hide Number;
    NumberOfFour(x / 4, x % 4 * 16 + y / 16, y % 16 * 4, 0);
    ThreeBytes(x, y, 0);
    hide First, Second, Third;
    assert Four(x, y, 0)[..3] == [x / 4, x % 4 * 16 + y / 16, y % 16 * 4];
    assert 64 * Number(Four(x, y, 0)[..3]) == 65536 * x + 256 * y + 0;
  }

  lemma TwoIsOne(x: Octet)
    ensures First(4096 * Number(Four(x, 0, 0)[..2])) == x
  {
    hide Number;
    NumberOfFour(x / 4, x % 4 * 16, 0, 0);
    ThreeBytes(x, 0, 0);
    hide First, Second, Third;
    assert Four(x, 0, 0)[..2] == [x / 4, x % 4 * 16];
    assert 4096 * Number(Four(x, 0, 0)[..2]) == 65536 * x + 256 * 0 + 0;
  }

  lemma ThreeBytes(x: Octet, y: Octet, z: Octet)
    ensures var q := 65536 * x + 256 * y + z; First(q) == x && Second(q) == y && Third(q) == z
  {
  }

  lemma FourLength(x: Octet, y: Octet, z: Octet)
    ensures |Four(x, y, z)| == 4
  {
  }

  lemma {:induction false} GroupsRoundTrip(bytes: seq<Octet>)
    requires |bytes| % 3 == 0
    ensures |GroupsOf(bytes)| % 4 == 0 && Groups(GroupsOf(bytes)) == bytes
  {
    hide First, Second, Third, Number, Four, Groups, GroupsOf;
    if bytes == [] {
      NoGroups();
    } else {
      var n := |bytes| - 3;
      var x, y, z := bytes[n], bytes[n + 1], bytes[n + 2];
      var front, four := GroupsOf(bytes[..n]), Four(x, y, z);
      GroupsRoundTrip(bytes[..n]);
      assert bytes == bytes[..n] + [x, y, z];
      GroupsOfMore(bytes[..n], x, y, z);
      FourIsThree(x, y, z);
      FourLength(x, y, z);
      GroupsMore(front + four, |front|);
      assert (front + four)[..|front|] == front && (front + four)[|front|..] == four;
    }
  }

  lemma LastRoundTrip(bytes: seq<Octet>)
    requires |bytes| < 3
    ensures |LastOf(bytes)| < 4 && LastGroup(LastOf(bytes)) == bytes
    ensures Agrees(|LastOf(bytes)|, if |bytes| == 0 then 0 else 3 - |bytes|)
  {
    hide First, Second, Third, Number;
    if |bytes| == 2 {
      ThreeIsTwo(bytes[0], bytes[1]);
    } else if |bytes| == 1 {
      TwoIsOne(bytes[0]);
    }
  }

  lemma SextetsRoundTrip(bytes: seq<Octet>)
    ensures Decoded(Sextets(bytes)) == bytes
    ensures Agrees(|Sextets(bytes)|, if |bytes| % 3 == 0 then 0 else 3 - |bytes| % 3)
  {
    hide Groups, GroupsOf, LastGroup, LastOf;
    var n := FullOf(|bytes|);
    var front, last := GroupsOf(bytes[..n]), LastOf(bytes[n..]);
    GroupsRoundTrip(bytes[..n]);
    LastRoundTrip(bytes[n..]);
    assert (front + last)[..|front|] == front && (front + last)[|front|..] == last;
    assert bytes == bytes[..n] + bytes[n..];
  }

  /** Decoding undoes encoding, whatever whitespace the encoded text has been wrapped with. */
  lemma DecodeOfEncode(bytes: seq<Octet>, text: seq<Octet>, r: Result<seq<Octet>, PemError>)
    requires Wraps(text, Encode(bytes)) && Answers(Stripped(text), r)
    ensures r == Ok(bytes)
  {
    hide Stripped, Wraps, Answers, Encode;
    NoWhitespace(bytes);
    WrappedIsStripped(text, Encode(bytes));
    EncodingIsRead(bytes, r);
  }

  lemma NoWhitespace(bytes: seq<Octet>)
    ensures forall byte :: byte in Encode(bytes) ==> byte !in WHITESPACE
  {
    hide Sextets;
  }

  lemma EncodingIsRead(bytes: seq<Octet>, r: Result<seq<Octet>, PemError>)
    requires Answers(Encode(bytes), r)
    ensures r == Ok(bytes)
  {
    hide Decoded, Sextets;
    var short := |bytes| % 3;
    var values, pads := Sextets(bytes), if short == 0 then 0 else 3 - short;
    SextetsRoundTrip(bytes);
    var s := Spelled(values, pads);
    assert s[..|s|] == s;
    assert Explains(s, values, pads, Ok(bytes));
    OneAnswer(s, r, Ok(bytes));
  }

  // -- what is accepted ----------------------------------------------------------------

  lemma {:induction false} GroupsLength(values: seq<Sextet>)
    requires |values| % 4 == 0
    ensures 4 * |Groups(values)| == 3 * |values|
  {
    hide First, Second, Third, Number;
    if values != [] {
      GroupsLength(values[..|values| - 4]);
    }
  }

  /** An accepted text has whole groups, and its padding says how many bytes the last one lacks. */
  lemma AcceptedLength(s: seq<Octet>, bytes: seq<Octet>)
    requires Answers(s, Ok(bytes))
    ensures |s| % 4 == 0
    ensures exists pads :: 0 <= pads <= 2 && pads <= |s| && s[|s| - pads..] == Pads(pads)
                           && |bytes| == 3 * (|s| / 4) - pads
                           && forall i :: 0 <= i < |s| - pads ==> ValueOf(s[i]) != None
  {
    hide First, Second, Third, Groups, ValueOf, CharOf;
    var values, pads :| Explains(s, values, pads, Ok(bytes));
    var n := Full(|values|);
    GroupsLength(values[..n]);
    assert s == s[..|s|];
    assert s[|s| - pads..] == Pads(pads);
    forall i | 0 <= i < |s| - pads
      ensures ValueOf(s[i]) != None
    {
      SpelledAt(s, values, pads, i);
      AlphabetRoundTrip(s[i], values[i]);
    }
  }

  /** The bits of the last sextet that no byte takes up. */
  function SpareBits(values: seq<Sextet>): nat {
    if |values| % 4 == 3 then values[|values| - 1] % 4
    else if |values| % 4 == 2 then values[|values| - 1] % 16
    else 0
  }

  /** Where the bits of a sextet go when its two parts are known. */
  lemma FourOf(a: Sextet, b1: nat, b0: nat, c1: nat, c0: nat, d: Sextet)
    requires b1 < 4 && b0 < 16 && c1 < 16 && c0 < 4
    ensures Four(4 * a + b1, 16 * b0 + c1, 64 * c0 + d) == [a, 16 * b1 + b0, 4 * c1 + c0, d]
  {
  }

  lemma BytesOfFour(a: Sextet, b1: nat, b0: nat, c1: nat, c0: nat, d: Sextet)
    requires b1 < 4 && b0 < 16 && c1 < 16 && c0 < 4
    ensures var q := Number([a, 16 * b1 + b0, 4 * c1 + c0, d]);
            First(q) == 4 * a + b1 && Second(q) == 16 * b0 + c1 && Third(q) == 64 * c0 + d
  {
    hide Number;
    NumberOfFour(a, 16 * b1 + b0, 4 * c1 + c0, d);
    ThreeBytes(4 * a + b1, 16 * b0 + c1, 64 * c0 + d);
  }

  lemma ThreeIsFour(a: Sextet, b: Sextet, c: Sextet, d: Sextet)
    ensures var q := Number([a, b, c, d]); Four(First(q), Second(q), Third(q)) == [a, b, c, d]
  {
    hide Number, First, Second, Third, Four;
    BytesOfFour(a, b / 16, b % 16, c / 4, c % 4, d);
    FourOf(a, b / 16, b % 16, c / 4, c % 4, d);
  }

  lemma TwoIsThree(a: Sextet, b: Sextet, c: Sextet)
    ensures var q := 64 * Number([a, b, c]); Four(First(q), Second(q), 0)[..3] == [a, b, c - c % 4]
  {
    hide Number, First, Second, Third, Four;
    NumberOfFour(a, b, c, 0);
    BytesOfFour(a, b / 16, b % 16, c / 4, c % 4, 0);
    FourOf(a, b / 16, b % 16, c / 4, 0, 0);
  }

  lemma OneIsTwo(a: Sextet, b: Sextet)
    ensures var q := 4096 * Number([a, b]); Four(First(q), 0, 0)[..2] == [a, b - b % 16]
  {
    hide Number, First, Second, Third, Four;
    NumberOfFour(a, b, 0, 0);
    BytesOfFour(a, b / 16, b % 16, 0, 0, 0);
    FourOf(a, b / 16, 0, 0, 0, 0);
  }

  lemma {:induction false} GroupsOfGroups(values: seq<Sextet>)
    requires |values| % 4 == 0
    ensures |Groups(values)| % 3 == 0 && GroupsOf(Groups(values)) == values
  {
    hide First, Second, Third, Number, Four, Groups, GroupsOf;
    if values == [] {
      NoGroups();
    } else {
      var n := |values| - 4;
      var front, q := Groups(values[..n]), Number(values[n..]);
      GroupsOfGroups(values[..n]);
      GroupsMore(values, n);
      GroupsOfMore(front, First(q), Second(q), Third(q));
      assert values[n..] == [values[n], values[n + 1], values[n + 2], values[n + 3]];
      ThreeIsFour(values[n], values[n + 1], values[n + 2], values[n + 3]);
      assert values == values[..n] + values[n..];
    }
  }

  lemma NoGroups()
    ensures Groups([]) == [] && GroupsOf([]) == []
  {
  }

  lemma GroupsOfMore(front: seq<Octet>, x: Octet, y: Octet, z: Octet)
    requires |front| % 3 == 0
    ensures |front + [x, y, z]| % 3 == 0
    ensures GroupsOf(front + [x, y, z]) == GroupsOf(front) + Four(x, y, z)
  {
    hide Four;
    assert (front + [x, y, z])[..|front|] == front;
  }

  lemma LastOfLast(last: seq<Sextet>)
    requires |last| < 4 && |last| != 1
    ensures |LastGroup(last)| == (if |last| == 0 then 0 else |last| - 1)
    ensures |LastOf(LastGroup(last))| == |last|
    ensures LastOf(LastGroup(last)) == last <==> SpareBits(last) == 0
  {
    hide First, Second, Third, Number, Four;
    if |last| == 3 {
      assert last == [last[0], last[1], last[2]];
      TwoIsThree(last[0], last[1], last[2]);
    } else if |last| == 2 {
      assert last == [last[0], last[1]];
      OneIsTwo(last[0], last[1]);
    }
  }

  /** An accepted text is the encoding of what it decodes to exactly when no spare bit is set. */
  lemma CanonicalExactly(s: seq<Octet>, values: seq<Sextet>, pads: nat, bytes: seq<Octet>)
    requires Explains(s, values, pads, Ok(bytes))
    ensures Encode(bytes) == s <==> SpareBits(values) == 0
  {
    hide Groups, GroupsOf, LastGroup, LastOf, ValueOf, CharOf, SpareBits;
    var n := Full(|values|);
    var last := values[n..];
    SextetsOfDecoded(values);
    LastOfLast(last);
    SpareBitsOfLast(values);
    assert values == values[..n] + last;
    assert s == s[..|s|];
    if Encode(bytes) == s {
      assert Chars(Sextets(bytes)) == s[..|values|] == Chars(values);
      CharsInjective(Sextets(bytes), values);
      assert LastOf(LastGroup(last)) == Sextets(bytes)[n..];
    }
  }

  lemma SpareBitsOfLast(values: seq<Sextet>)
    ensures SpareBits(values) == SpareBits(values[Full(|values|)..])
  {
  }

  /** Encoding what a run of sextets stands for gives back its whole groups, and of the rest what the
      bytes kept. */
  lemma SextetsOfDecoded(values: seq<Sextet>)
    requires |values| % 4 != 1
    ensures var n := Full(|values|);
            && Sextets(Decoded(values)) == values[..n] + LastOf(LastGroup(values[n..]))
            && |Decoded(values)| % 3 == |LastGroup(values[n..])|
  {
    hide Groups, GroupsOf, LastOf, SpareBits;
    var n := Full(|values|);
    var left, right := Groups(values[..n]), LastGroup(values[n..]);
    GroupsOfGroups(values[..n]);
    assert (left + right)[..|left|] == left && (left + right)[|left|..] == right;
    assert FullOf(|left + right|) == |left|;
  }

  lemma CharsInjective(v: seq<Sextet>, w: seq<Sextet>)
    requires Chars(v) == Chars(w)
    ensures v == w
  {
    hide CharOf, ValueOf;
    forall k | 0 <= k < |v|
      ensures k < |w| && v[k] == w[k]
    {
      assert Chars(v)[k] == Chars(w)[k];
      AlphabetRoundTrip(CharOf(v[k]), v[k]);
      AlphabetRoundTrip(CharOf(v[k]), w[k]);
    }
  }

  /** So two texts can decode alike: "Zg==" and "Zh==" are both the byte of "f". */
  lemma SpareBitsAreNotChecked()
    ensures Answers([90, 103, 61, 61], Ok([102]))
    ensures Answers([90, 104, 61, 61], Ok([102]))
    ensures Encode([102]) == [90, 103, 61, 61]
  {
    hide Answers, Encode, CharOf;
    TwoLetters(25, 32);
    TwoLetters(25, 33);
    EncodedByte(102);
    Letters();
  }

  lemma Letters()
    ensures [CharOf(25), CharOf(32), PAD, PAD] == [90, 103, 61, 61]
    ensures [CharOf(25), CharOf(33), PAD, PAD] == [90, 104, 61, 61]
  {
  }

  /** Two letters and two pads are one byte, whatever the spare bits of the second. */
  lemma TwoLetters(a: Sextet, b: Sextet)
    ensures Answers([CharOf(a), CharOf(b), PAD, PAD], Ok([4 * a + b / 16]))
  {
    OneByte(a, b);
    SpellTwo(a, b);
    hide Decoded, CharOf, Spelled, ValueOf;
    var s := [CharOf(a), CharOf(b), PAD, PAD];
    assert s[..4] == s;
    assert Explains(s, [a, b], 2, Ok([4 * a + b / 16]));
  }

  lemma SpellTwo(a: Sextet, b: Sextet)
    ensures Spelled([a, b], 2) == [CharOf(a), CharOf(b), PAD, PAD]
    ensures Chars([a, b]) + Pads(2) == [CharOf(a), CharOf(b), PAD, PAD]
  {
    hide CharOf;
  }

  lemma EncodedByte(x: Octet)
    ensures Encode([x]) == [CharOf(x / 4), CharOf(x % 4 * 16), PAD, PAD]
  {
    hide CharOf, Chars, Pads;
    SpellTwo(x / 4, x % 4 * 16);
    assert [x][..0] == [] && [x][0..] == [x];
    assert Four(x, 0, 0)[..2] == [x / 4, x % 4 * 16];
    assert Sextets([x]) == [x / 4, x % 4 * 16];
  }

  lemma OneByte(a: Sextet, b: Sextet)
    ensures Decoded([a, b]) == [4 * a + b / 16]
  {
    hide Number, First, Second, Third;
    NumberOfFour(a, b, 0, 0);
    BytesOfFour(a, b / 16, b % 16, 0, 0, 0);
    assert [a, b][..0] == [] && [a, b][0..] == [a, b];
  }
}
