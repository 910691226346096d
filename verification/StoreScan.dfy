/** A store's side of a range read: which requests it serves, and what one answer holds.

The client walks a range by reading each answer as "some of what is left, and something unless
nothing is". What makes that reading sound is proved here about the store's own loop: it answers
with a leading part of the range, cut by the caller's limit, by its own cap and by a byte budget no
caller can see, and never an empty part of a range that holds anything.
*/
module StoreScan {
  import opened Keys
  import opened Proto
  import opened Ranges

  /** The namespace byte under which raw keys are stored. */
  const RAW: Byte := 0x72

  /** A reverse request names its exclusive upper bound in `start` and its lower bound in `end`. */
  datatype ScanReq = ScanReq(start: Key, end: Key, limit: nat, reverse: bool) {
    function Low(): Key { if reverse then end else start }
    function High(): Key { if reverse then start else end }
  }

  datatype Limits = Limits(maxScanLimit: nat, maxScanBytes: nat)

  function RawKey(key: Key): Key {
    [RAW] + key
  }

  /** The first key past the whole raw namespace. */
  const NAMESPACE_END: Key := [RAW + 1]

  predicate IsRaw(pair: Pair) {
    pair.key != [] && pair.key[0] == RAW
  }

  function UserPair(pair: Pair): Pair
    requires IsRaw(pair)
  {
    Pair(pair.key[1..], pair.value)
  }

  /** What the raw service shows of an engine: the pairs under its namespace, prefix removed. */
  function RawView(engine: seq<Pair>): seq<Pair> {
    if engine == [] then []
    else if IsRaw(engine[0]) then [UserPair(engine[0])] + RawView(engine[1..])
    else RawView(engine[1..])
  }

  /** Whether `[low, high)` is inside the region. */
  predicate ContainsRange(region: Region, low: Key, high: Key) {
    Le(region.startKey, low) && (region.endKey == [] || (high != [] && Le(high, region.endKey)))
  }

  /** For bounds that leave room for a key, that is exactly every key of the range being the region's. */
  lemma ContainsRangeExactly(region: Region, low: Key, high: Key)
    requires high == [] || Lt(low, high)
    ensures ContainsRange(region, low, high) <==> forall key :: Owns(low, high, key) ==> region.Contains(key)
  {
    if ContainsRange(region, low, high) {
      forall key | Owns(low, high, key) ensures region.Contains(key) {
        LeTransitive(region.startKey, low, key);
        if region.endKey != [] {
          LtLeTransitive(key, high, region.endKey);
        }
      }
    } else if Le(region.startKey, low) {
      var key := if Le(region.endKey, low) then low else region.endKey;
      LeIsNotLt(region.endKey, low);
      LeIsNotLt(high, region.endKey);
      LtIrreflexive(region.endKey);
      assert Owns(low, high, key) && !region.Contains(key);
    } else {
      assert Owns(low, high, low) && !region.Contains(low);
    }
  }

  /** The bounds in stored key space; an open upper bound must not leave the namespace. */
  function StoredHigh(region: Region, high: Key): Key {
    if high != [] then RawKey(high)
    else if region.endKey == [] then NAMESPACE_END
    else RawKey(region.endKey)
  }

  lemma PrefixKeepsOrder(a: Key, b: Key)
    ensures Lt(RawKey(a), RawKey(b)) <==> Lt(a, b)
    ensures Le(RawKey(a), RawKey(b)) <==> Le(a, b)
  {
    assert RawKey(a)[1..] == a && RawKey(b)[1..] == b;
  }

  /** Scanning the stored bounds of the whole engine meets exactly the raw keys of the range: no
  transactional key that sorts next to them, and no raw key missed. */
  lemma {:induction false} StoredBoundsAreTheRange(engine: seq<Pair>, region: Region, low: Key, high: Key)
    requires ContainsRange(region, low, high)
    ensures var stretch := Select(engine, RawKey(low), StoredHigh(region, high));
      && (forall p :: p in stretch ==> IsRaw(p))
      && RawView(stretch) == Select(RawView(engine), low, high)
  {
    if engine != [] {
      StoredBoundsAreTheRange(engine[1..], region, low, high);
      var stored := engine[0].key;
      var bottom, top := RawKey(low), StoredHigh(region, high);
      if IsRaw(engine[0]) {
        var key := stored[1..];
        assert stored == RawKey(key);
        PrefixKeepsOrder(low, key);
        PrefixKeepsOrder(key, high);
        assert Owns(bottom, top, stored) <==> Owns(low, high, key);
        assert RawView(engine)[1..] == RawView(engine[1..]);
      } else {
        assert bottom[0] == RAW && (top[0] == RAW || (top == [RAW + 1] && top[1..] == []));
        assert stored == [] || stored[0] < RAW || RAW + 1 <= stored[0];
        assert !Le(bottom, stored) || !Lt(stored, top);
      }
      if Owns(bottom, top, stored) {
        assert Select(engine, bottom, top)[1..] == Select(engine[1..], bottom, top);
      }
    }
  }

  lemma {:induction false} RawViewOfRaw(s: seq<Pair>)
    requires forall p :: p in s ==> IsRaw(p)
    ensures |RawView(s)| == |s|
    ensures forall i :: 0 <= i < |s| ==> RawView(s)[i] == UserPair(s[i])
  {
    if s != [] {
      var tail := s[1..];
      assert forall p :: p in tail ==> p in s;
      RawViewOfRaw(tail);
      assert RawView(s) == [UserPair(s[0])] + RawView(tail);
      forall i | 1 <= i < |s| ensures RawView(s)[i] == UserPair(s[i]) {
        assert s[i] == tail[i - 1];
      }
    }
  }

  /** How many pairs one answer may hold: zero asks for the store's own cap. */
  function Cap(limits: Limits, limit: nat): (cap: nat)
    ensures cap <= limits.maxScanLimit && (limit > 0 ==> cap <= limit)
    ensures cap == limits.maxScanLimit || (limit > 0 && cap == limit)
  {
    if limit == 0 || limit > limits.maxScanLimit then limits.maxScanLimit else limit
  }

  /** A leading part of a range, at most `cap` long and empty only if the range is (or `cap`). */
  ghost predicate IsAnswer(range: seq<Pair>, cap: nat, pairs: seq<Pair>) {
    && |pairs| <= cap
    && pairs <= range
    && (cap > 0 && range != [] ==> pairs != [])
  }

  /** What pairs take of the byte budget: their stored keys, prefix included, and their values. */
  function Bytes(pairs: seq<Pair>): nat {
    if pairs == [] then 0
    else
      var last := pairs[|pairs| - 1];
      Bytes(pairs[..|pairs| - 1]) + |RawKey(last.key)| + |last.value|
  }

  /** The longest leading part of a range within the count and the bytes, but one pair at least. */
  ghost predicate IsLongest(range: seq<Pair>, cap: nat, maxBytes: nat, pairs: seq<Pair>) {
    && pairs <= range && |pairs| <= cap
    && (|pairs| <= 1 || Bytes(pairs) <= maxBytes)
    && (|pairs| < |range| && |pairs| < cap ==> pairs != [] && Bytes(range[..|pairs| + 1]) > maxBytes)
  }

  lemma BytesMore(range: seq<Pair>, n: nat)
    requires n < |range|
    ensures Bytes(range[..n + 1]) == Bytes(range[..n]) + |RawKey(range[n].key)| + |range[n].value|
  {
    assert range[..n + 1][..n] == range[..n];
  }

  lemma {:induction false} BytesGrow(range: seq<Pair>, m: nat, n: nat)
    requires m <= n <= |range|
    ensures Bytes(range[..m]) <= Bytes(range[..n])
    decreases n - m
  {
    if m < n {
      BytesMore(range, n - 1);
      BytesGrow(range, m, n - 1);
    }
  }

  /** There is one longest part. */
  lemma LongestIsUnique(range: seq<Pair>, cap: nat, maxBytes: nat, a: seq<Pair>, b: seq<Pair>)
    requires IsLongest(range, cap, maxBytes, a) && IsLongest(range, cap, maxBytes, b) && |a| <= |b|
    ensures a == b
  {
    assert a == range[..|a|] && b == range[..|b|];
    if |a| < |b| {
      BytesGrow(range, |a| + 1, |b|);
    }
  }

  lemma LongestIsAnswer(range: seq<Pair>, cap: nat, maxBytes: nat, pairs: seq<Pair>)
    requires IsLongest(range, cap, maxBytes, pairs)
    ensures IsAnswer(range, cap, pairs)
  {
  }

  /** How many pairs a walk that has taken `n` takes in all. */
  ghost function Taken(range: seq<Pair>, cap: nat, maxBytes: nat, n: nat): nat
    decreases |range| - n
  {
    if n < |range| && n < cap && (n == 0 || Bytes(range[..n + 1]) <= maxBytes)
    then Taken(range, cap, maxBytes, n + 1)
    else n
  }

  lemma {:induction false} TakenIsLongest(range: seq<Pair>, cap: nat, maxBytes: nat, n: nat)
    requires n <= |range| && n <= cap && (n <= 1 || Bytes(range[..n]) <= maxBytes)
    ensures Taken(range, cap, maxBytes, n) <= |range|
    ensures IsLongest(range, cap, maxBytes, range[..Taken(range, cap, maxBytes, n)])
    decreases |range| - n
  {
    if n < |range| && n < cap && (n == 0 || Bytes(range[..n + 1]) <= maxBytes) {
      TakenIsLongest(range, cap, maxBytes, n + 1);
    }
  }

  ghost function Longest(range: seq<Pair>, cap: nat, maxBytes: nat): (pairs: seq<Pair>)
    ensures IsLongest(range, cap, maxBytes, pairs)
  {
    TakenIsLongest(range, cap, maxBytes, 0);
    range[..Taken(range, cap, maxBytes, 0)]
  }

  /** Where a walk over places `[a, b)` meets its `i`-th pair. */
  function Place(a: int, b: int, i: int, reverse: bool): int {
    if reverse then b - 1 - i else a + i
  }

  lemma RangeByPlace(engine: Database, low: Key, high: Key, reverse: bool)
    requires high != [] && Ordered(low, high)
    requires forall p :: p in Select(engine, low, high) ==> IsRaw(p)
    ensures Rank(engine, low) <= Rank(engine, high)
    ensures var a, b := Rank(engine, low), Rank(engine, high);
      var range := RawView(Visit(engine, low, high, reverse));
      && |range| == b - a
      && forall i :: 0 <= i < |range| ==>
           IsRaw(engine[Place(a, b, i, reverse)]) && range[i] == UserPair(engine[Place(a, b, i, reverse)])
  {
    VisitByPlace(engine, low, high, reverse);
    RawViewOfRaw(Visit(engine, low, high, reverse));
  }

  lemma VisitByPlace(engine: Database, low: Key, high: Key, reverse: bool)
    requires high != [] && Ordered(low, high)
    ensures Rank(engine, low) <= Rank(engine, high)
    ensures var a, b := Rank(engine, low), Rank(engine, high);
      var visit := Visit(engine, low, high, reverse);
      && |visit| == b - a
      && (forall i :: 0 <= i < |visit| ==> visit[i] == engine[Place(a, b, i, reverse)])
      && (forall p :: p in visit ==> p in Select(engine, low, high))
  {
    hide Lt, Select, Rank;
    SelectIsSlice(engine, low, high);
    var select := Select(engine, low, high);
    if reverse {
      ReverseKeeps(select);
    }
  }

  lemma ReverseKeeps<T(!new)>(s: seq<T>)
    ensures forall p :: p in Reverse(s) ==> p in s
  {
    forall p | p in Reverse(s) ensures p in s {
      var i :| 0 <= i < |s| && Reverse(s)[i] == p;
      assert p == s[|s| - 1 - i];
    }
  }

  /** Whether the walk stops at a key: it is past the range. */
  predicate Beyond(key: Key, low: Key, high: Key, reverse: bool) {
    if reverse then Lt(key, low) else !Lt(key, high)
  }

  /** After `n` pairs the walk stands at the next of the range, or past it if there are no more. */
  lemma NextPlace(engine: Database, low: Key, high: Key, reverse: bool, n: nat, at: int)
    requires high != [] && Ordered(low, high)
    requires forall p :: p in Select(engine, low, high) ==> IsRaw(p)
    requires var range := RawView(Visit(engine, low, high, reverse));
      n <= |range| && at == Place(Rank(engine, low), Rank(engine, high), n, reverse)
    ensures var range := RawView(Visit(engine, low, high, reverse));
      if 0 <= at < |engine| && !Beyond(engine[at].key, low, high, reverse)
      then n < |range| && IsRaw(engine[at]) && range[n] == UserPair(engine[at])
      else n == |range|
  {
    RangeByPlace(engine, low, high, reverse);
  }

  /** Pairs taken so far, and their bytes. */
  ghost predicate Taking(range: seq<Pair>, cap: nat, maxBytes: nat, pairs: seq<Pair>, bytes: nat) {
    && |pairs| <= |range| && pairs == range[..|pairs|] && |pairs| <= cap
    && bytes == Bytes(pairs) && (|pairs| <= 1 || bytes <= maxBytes)
  }

  lemma TakeOne(range: seq<Pair>, cap: nat, maxBytes: nat, pairs: seq<Pair>, bytes: nat)
    requires Taking(range, cap, maxBytes, pairs, bytes) && |pairs| < cap && |pairs| < |range|
    ensures var pair := range[|pairs|];
      var more := bytes + |RawKey(pair.key)| + |pair.value|;
      if more > maxBytes && pairs != [] then IsLongest(range, cap, maxBytes, pairs)
      else Taking(range, cap, maxBytes, pairs + [pair], more)
  {
    hide Bytes;
    BytesMore(range, |pairs|);
    PrefixMore(range, |pairs|);
  }

  lemma PrefixMore(range: seq<Pair>, n: nat)
    requires n < |range|
    ensures range[..n] + [range[n]] == range[..n + 1]
  {
  }

  lemma TakenAll(range: seq<Pair>, cap: nat, maxBytes: nat, pairs: seq<Pair>, bytes: nat)
    requires Taking(range, cap, maxBytes, pairs, bytes) && (|pairs| == cap || |pairs| == |range|)
    ensures IsLongest(range, cap, maxBytes, pairs)
  {
  }

  lemma TakenNothing(range: seq<Pair>, cap: nat, maxBytes: nat)
    ensures Taking(range, cap, maxBytes, [], 0)
  {
  }

  /** Walks up from `low` or down from `high` until the count, the bytes or the range runs out. */
  method Collect(engine: Database, low: Key, high: Key, maxBytes: nat, cap: nat, reverse: bool)
    returns (pairs: seq<Pair>)
    requires high != [] && Ordered(low, high)
    requires forall p :: p in Select(engine, low, high) ==> IsRaw(p)
    ensures IsLongest(RawView(Visit(engine, low, high, reverse)), cap, maxBytes, pairs)
  {
    hide Bytes, IsLongest, Lt, Rank, Select, RawView, Visit, Beyond;
    pairs := [];
    var bytes: nat := 0;
    ghost var a, b := Rank(engine, low), Rank(engine, high);
    ghost var range := RawView(Visit(engine, low, high, reverse));
    TakenNothing(range, cap, maxBytes);
    var at: int := SeekFrom(engine, low, high, reverse);
    while 0 <= at < |engine| && |pairs| < cap
      invariant at == Place(a, b, |pairs|, reverse)
      invariant Taking(range, cap, maxBytes, pairs, bytes)
      decreases cap - |pairs|
    {
      var pair := engine[at];
      NextPlace(engine, low, high, reverse, |pairs|, at);
      if Beyond(pair.key, low, high, reverse) {
        TakenAll(range, cap, maxBytes, pairs, bytes);
        return;
      }
      TakeOne(range, cap, maxBytes, pairs, bytes);
      bytes := bytes + |pair.key| + |pair.value|;
      if bytes > maxBytes && pairs != [] {
        return;
      }
      pairs := pairs + [UserPair(pair)];
      at := if reverse then at - 1 else at + 1;
    }
    NextPlace(engine, low, high, reverse, |pairs|, at);
    TakenAll(range, cap, maxBytes, pairs, bytes);
  }

  /** Where the walk begins: the first key at or above `low`, or the last one strictly below `high`. */
  method SeekFrom(engine: Database, low: Key, high: Key, reverse: bool) returns (at: int)
    ensures at == if reverse then Rank(engine, high) - 1 else Rank(engine, low)
  {
    if !reverse {
      return Rank(engine, low);
    }
    var n := Rank(engine, high);
    if 0 < n { LeIsNotLt(high, engine[n - 1].key); }
    if n < |engine| { LeIsNotLt(high, engine[n].key); }
    at := if n < |engine| && engine[n].key == high then n else n - 1;
    while 0 <= at < |engine| && Le(high, engine[at].key)
      invariant at == n || at == n - 1
      decreases at
    {
      at := at - 1;
    }
  }

  /** What a store answers: a refusal for bounds that cross, a refusal that names its own range for bounds
  outside it, and otherwise the longest part of the range it may send. */
  ghost function Served(engine: Database, region: Region, limits: Limits, req: ScanReq): Result<seq<Pair>, ProtoError> {
    if !Ordered(req.Low(), req.High()) then Err(InvalidRequest)
    else if !ContainsRange(region, req.Low(), req.High()) then
      Err(KeyNotInRegion(req.Low(), region.id, region.startKey, region.endKey))
    else
      Ok(Longest(Visit(RawView(engine), req.Low(), req.High(), req.reverse), Cap(limits, req.limit), limits.maxScanBytes))
  }

  /** Serves one scan of the keys `region` owns, out of an engine that other namespaces share. */
  method Serve(engine: Database, region: Region, limits: Limits, req: ScanReq)
    returns (r: Result<seq<Pair>, ProtoError>)
    ensures r == Served(engine, region, limits, req)
    ensures r.Ok? <==> Ordered(req.Low(), req.High()) && ContainsRange(region, req.Low(), req.High())
    ensures r.Ok? ==>
      IsLongest(Visit(RawView(engine), req.Low(), req.High(), req.reverse), Cap(limits, req.limit),
                limits.maxScanBytes, r.value)
    ensures !Ordered(req.Low(), req.High()) ==> r == Err(InvalidRequest)
    ensures r.Err? && Ordered(req.Low(), req.High()) ==>
      r.error == KeyNotInRegion(req.Low(), region.id, region.startKey, region.endKey)
  {
    var low, high := req.Low(), req.High();
    LeIsNotLt(low, high);
    if high != [] && Lt(high, low) {
      return Err(InvalidRequest);
    }
    if !ContainsRange(region, low, high) {
      return Err(KeyNotInRegion(low, region.id, region.startKey, region.endKey));
    }
    var top := StoredHigh(region, high);
    StoredBoundsAreTheRange(engine, region, low, high);
    StoredBoundsAreOrdered(region, low, high);
    var pairs := Collect(engine, RawKey(low), top, limits.maxScanBytes, Cap(limits, req.limit), req.reverse);
    ViewOfVisit(engine, region, low, high, req.reverse);
    OneAnswer(Visit(RawView(engine), low, high, req.reverse), Cap(limits, req.limit), limits.maxScanBytes, pairs);
    return Ok(pairs);
  }

  lemma OneAnswer(range: seq<Pair>, cap: nat, maxBytes: nat, pairs: seq<Pair>)
    requires IsLongest(range, cap, maxBytes, pairs)
    ensures pairs == Longest(range, cap, maxBytes)
  {
    hide Longest, IsLongest;
    var longest := Longest(range, cap, maxBytes);
    if |pairs| <= |longest| {
      LongestIsUnique(range, cap, maxBytes, pairs, longest);
    } else {
      LongestIsUnique(range, cap, maxBytes, longest, pairs);
    }
  }

  lemma StoredBoundsAreOrdered(region: Region, low: Key, high: Key)
    requires ContainsRange(region, low, high) && Ordered(low, high)
    ensures StoredHigh(region, high) != [] && Ordered(RawKey(low), StoredHigh(region, high))
  {
    if high != [] {
      PrefixKeepsOrder(low, high);
    }
  }

  lemma ViewOfVisit(engine: Database, region: Region, low: Key, high: Key, reverse: bool)
    requires ContainsRange(region, low, high)
    ensures RawView(Visit(engine, RawKey(low), StoredHigh(region, high), reverse))
      == Visit(RawView(engine), low, high, reverse)
  {
    StoredBoundsAreTheRange(engine, region, low, high);
    var stretch := Select(engine, RawKey(low), StoredHigh(region, high));
    RawViewOfRaw(stretch);
    RawViewOfRaw(Reverse(stretch));
    assert RawView(Reverse(stretch)) == Reverse(RawView(stretch));
  }
}
