/** The region-crossing range read of the raw client.

A range is planned once, one piece per region; each piece is paged until a store answers with
nothing; and a piece whose region has split under the plan is cut in two and put back. The claim is
that all of this is invisible: whatever the page size, the stores' byte budgets, the splits and
their timing, a scan that answers at all answers with exactly the first pairs of the range.

Stores, routing and the placement driver answer as they please. Their answers are given to a scan, one for
each step of its plan and one for each call it makes, so what is proved holds of all of them.
*/
module RawScan {
  import opened Keys
  import opened Proto
  import opened Ranges
  import opened StoreScan

  type u32 = n: nat | n < 0x1_0000_0000

  const USIZE_MAX: nat := 0xFFFF_FFFF_FFFF_FFFF
  const DEFAULT_SCAN_LIMIT: u32 := 1024
  const MAX_SCAN_REGIONS: nat := 64
  const MAX_SCAN_CALLS: nat := 4096
  const SCAN_ROUTE_REFRESHES: nat := 4
  const ROUTE_REPAIR_ATTEMPTS: nat := 5

  datatype Piece = Piece(from: Key, to: Key)

  /** What a walk cost: calls made, splits met, and whether the call cap ended it. */
  datatype Work = Work(calls: nat, narrowings: nat, capped: bool)

  /** The pieces of a plan, the upper bound they reach, and whether planning stopped short because
  a routing answer did not advance past the key it was asked about. */
  datatype Plan = Plan(pieces: seq<Piece>, covered: Key, stuck: bool)

  function FirstN<T>(s: seq<T>, n: nat): seq<T> {
    if |s| <= n then s else s[..n]
  }

  /** The specification: the first `limit` pairs of `[start, end)`, every pair for a limit of zero. */
  function Answer(db: Database, start: Key, end: Key, limit: u32, reverse: bool): seq<Pair> {
    var range := Visit(db, start, end, reverse);
    if limit == 0 then range else FirstN(range, limit)
  }

  // -- the environment -----------------------------------------------------------------

  type Located = Result<Option<Region>, ProtoError>

  /** How a key would be looked up at one time: what the cache holds there, and what the placement driver says
  each time it is asked. */
  datatype Lookup = Lookup(cached: Option<Region>, driver: nat -> Located) {
    /** A cached region answers only for the keys it contains. */
    function Known(key: Key): Option<Region> {
      if cached.Some? && cached.value.Contains(key) then cached else None
    }
  }

  /** A store's side of one routed scan: it fails in some way, or a store of some region serves it. */
  datatype Reply = Fails(error: Error) | From(engine: Database, region: Region, limits: Limits)

  /** One call to a store: how it is replied to, and how the key is looked up if that is a refusal. */
  datatype Moment = Moment(reply: Reply, repair: Lookup)

  /** An engine that holds what the cluster holds of one region, whatever else it holds. */
  predicate Holds(engine: Database, region: Region, db: Database) {
    Select(RawView(engine), region.startKey, region.endKey) == Select(db, region.startKey, region.endKey)
  }

  /** A store that serves holds what the cluster holds of its region, under whatever limits it runs with. */
  ghost predicate Honest(db: Database, reply: Reply) {
    match reply
    case Fails(error) => !error.InternalError?
    case From(engine, region, limits) => Holds(engine, region, db) && limits.maxScanLimit > 0
  }

  ghost function Answered(reply: Reply, req: ScanReq): Result<seq<Pair>, Error> {
    match reply
    case Fails(error) => Err(error)
    case From(engine, region, limits) =>
      match Served(engine, region, limits, req)
      case Ok(pairs) => Ok(pairs)
      case Err(refusal) => Err(Store(refusal))
  }

  lemma HeldRangesAgree(engine: Database, region: Region, db: Database, low: Key, high: Key)
    requires Holds(engine, region, db) && ContainsRange(region, low, high)
    ensures Select(RawView(engine), low, high) == Select(db, low, high)
  {
    SelectWithin(db, region.startKey, region.endKey, low, high);
    SelectWithin(RawView(engine), region.startKey, region.endKey, low, high);
  }

  /** What an honest store answers is a leading part of what the cluster holds. */
  lemma AnsweredHonestly(db: Database, reply: Reply, req: ScanReq)
    requires Honest(db, reply) && req.limit > 0
    ensures var r := Answered(reply, req);
      && (r.Ok? ==>
            && Ordered(req.Low(), req.High())
            && IsAnswer(Visit(db, req.Low(), req.High(), req.reverse), req.limit, r.value))
      && (r.Err? ==> !r.error.InternalError?)
  {
    hide RawView, Select, Longest, Lt;
    if reply.From? && Answered(reply, req).Ok? {
      var From(engine, region, limits) := reply;
      HeldRangesAgree(engine, region, db, req.Low(), req.High());
      var range := Visit(RawView(engine), req.Low(), req.High(), req.reverse);
      LongestIsAnswer(range, Cap(limits, req.limit), limits.maxScanBytes, Answered(reply, req).value);
    }
  }

  method CallScan(reply: Reply, req: ScanReq) returns (r: Result<seq<Pair>, Error>)
    ensures r == Answered(reply, req)
  {
    match reply
    case Fails(error) => return Err(error);
    case From(engine, region, limits) =>
      var served := Serve(engine, region, limits, req);
      match served
      case Err(refusal) => return Err(Store(refusal));
      case Ok(pairs) => return Ok(pairs);
  }

  /** The question at which the driver is first told apart from silent, or the last asked. */
  function FirstWord(driver: nat -> Located, n: nat): (k: nat)
    requires n <= ROUTE_REPAIR_ATTEMPTS
    ensures n <= k <= ROUTE_REPAIR_ATTEMPTS
    ensures forall i :: n <= i < k ==> driver(i) == Ok(None)
    ensures k < ROUTE_REPAIR_ATTEMPTS ==> driver(k) != Ok(None)
    decreases ROUTE_REPAIR_ATTEMPTS - n
  {
    if n < ROUTE_REPAIR_ATTEMPTS && driver(n) == Ok(None) then FirstWord(driver, n + 1) else n
  }

  ghost predicate SilentBefore(driver: nat -> Located, n: nat) {
    forall i :: 0 <= i < n ==> driver(i) == Ok(None)
  }

  /** A cached route, or the driver's first word after waiting out its silence. The driver's answer is taken
  as it comes: nothing here checks that the region holds the key. */
  function Routed(lookup: Lookup, key: Key): (r: Result<Region, ProtoError>)
    ensures lookup.Known(key).Some? ==> r == Ok(lookup.Known(key).value)
    ensures lookup.Known(key).None? ==> forall n :: 0 <= n <= ROUTE_REPAIR_ATTEMPTS && SilentBefore(lookup.driver, n) ==>
      && (lookup.driver(n).Err? ==> r == Err(lookup.driver(n).error))
      && (lookup.driver(n).Ok? && lookup.driver(n).value.Some? ==> r == Ok(lookup.driver(n).value.value))
      && (lookup.driver(n) == Ok(None) && n == ROUTE_REPAIR_ATTEMPTS ==> r == Err(KeyNotInRegion(key, 0, [], [])))
  {
    if lookup.Known(key).Some? then Ok(lookup.Known(key).value)
    else
      match lookup.driver(FirstWord(lookup.driver, 0))
      case Err(error) => Err(error)
      case Ok(None) => Err(KeyNotInRegion(key, 0, [], []))
      case Ok(Some(region)) => Ok(region)
  }

  method Route(lookup: Lookup, key: Key) returns (r: Result<Region, ProtoError>)
    ensures r == Routed(lookup, key)
  {
    var cached := lookup.Known(key);
    if cached.Some? {
      return Ok(cached.value);
    }
    var located := lookup.driver(0);
    var attempt := 0;
    while located.Ok? && located.value.None? && attempt < ROUTE_REPAIR_ATTEMPTS
      invariant attempt <= ROUTE_REPAIR_ATTEMPTS && located == lookup.driver(attempt)
      invariant forall i :: 0 <= i < attempt ==> lookup.driver(i) == Ok(None)
      decreases ROUTE_REPAIR_ATTEMPTS - attempt
    {
      attempt := attempt + 1;
      located := lookup.driver(attempt);
    }
    assert attempt == FirstWord(lookup.driver, 0);
    match located
    case Err(error) => return Err(error);
    case Ok(None) => return Err(KeyNotInRegion(key, 0, [], []));
    case Ok(Some(region)) => return Ok(region);
  }

  /** A store's own refusal names a range that holds the key; the driver's (region 0, empty bounds) does not. */
  predicate Believable(refusal: ProtoError, key: Key) {
    refusal.KeyNotInRegion? && refusal.regionId != 0 && Owns(refusal.startKey, refusal.endKey, key)
  }

  /** A refusal of the router's own, which names no region, is never taken for a store's. */
  lemma OwnRefusalIsWaitedOut(lookup: Lookup, key: Key)
    requires Routed(lookup, key).Err? && Routed(lookup, key).error.KeyNotInRegion?
    requires forall i :: lookup.driver(i).Err? ==> !lookup.driver(i).error.KeyNotInRegion?
    ensures !Believable(Routed(lookup, key).error, key)
  {
  }

  predicate Tells(located: Located, key: Key) {
    located.Ok? && located.value.Some? && located.value.value.Contains(key)
  }

  /** The first question the driver answers with a region that holds the key, if one of those asked is. */
  function FirstHolder(driver: nat -> Located, key: Key, n: nat): (k: nat)
    requires n <= ROUTE_REPAIR_ATTEMPTS
    ensures n <= k <= ROUTE_REPAIR_ATTEMPTS
    ensures forall i :: n <= i < k ==> !Tells(driver(i), key)
    ensures k < ROUTE_REPAIR_ATTEMPTS ==> Tells(driver(k), key)
    decreases ROUTE_REPAIR_ATTEMPTS - n
  {
    if n < ROUTE_REPAIR_ATTEMPTS && !Tells(driver(n), key) then FirstHolder(driver, key, n + 1) else n
  }

  /** Where a key lives after a refusal. A store that names a range holding the key is believed over the
  driver, which otherwise is asked until it names a region that holds it. A failure is the refusal itself. */
  function Repaired(lookup: Lookup, key: Key, refusal: ProtoError): (r: Result<Region, Error>)
    ensures r.Ok? ==> r.value.Contains(key)
    ensures r.Ok? && Believable(refusal, key) ==>
      r.value.id == refusal.regionId && r.value.startKey == refusal.startKey && r.value.endKey == refusal.endKey
    ensures Believable(refusal, key) ==>
      (r.Ok? <==> lookup.Known(key).Some? || (lookup.driver(0).Ok? && lookup.driver(0).value.Some?))
    ensures !Believable(refusal, key) ==>
      (r.Ok? <==> exists i :: 0 <= i < ROUTE_REPAIR_ATTEMPTS && Tells(lookup.driver(i), key))
    ensures r.Err? ==> r.error == Store(refusal)
  {
    if Believable(refusal, key) then
      var known :=
        if lookup.Known(key).Some? then lookup.Known(key)
        else if lookup.driver(0).Ok? then lookup.driver(0).value
        else None;
      if known.None? then Err(Store(refusal))
      else Ok(known.value.(id := refusal.regionId, startKey := refusal.startKey, endKey := refusal.endKey))
    else
      var k := FirstHolder(lookup.driver, key, 0);
      if k < ROUTE_REPAIR_ATTEMPTS then
        assert Tells(lookup.driver(k), key);
        Ok(lookup.driver(k).value.value)
      else Err(Store(refusal))
  }

  method RepairRoute(lookup: Lookup, key: Key, refusal: ProtoError) returns (r: Result<Region, Error>)
    ensures r == Repaired(lookup, key, refusal)
  {
    if Believable(refusal, key) {
      var known := lookup.Known(key);
      if known.None? {
        var located := lookup.driver(0);
        known := if located.Ok? then located.value else None;
      }
      if known.None? {
        return Err(Terminal(refusal, PdGetRegion));
      }
      return Ok(known.value.(id := refusal.regionId, startKey := refusal.startKey, endKey := refusal.endKey));
    }
    for attempt := 0 to ROUTE_REPAIR_ATTEMPTS
      invariant forall i :: 0 <= i < attempt ==> !Tells(lookup.driver(i), key)
    {
      var located := lookup.driver(attempt);
      if located.Ok? && located.value.Some? && located.value.value.Contains(key) {
        assert attempt == FirstHolder(lookup.driver, key, 0);
        return Ok(located.value.value);
      }
    }
    return Err(Terminal(refusal, PdGetRegion));
  }

  // -- planning ------------------------------------------------------------------------

  /** Pieces that follow one another from `lo` to `hi`. */
  predicate Chain(pieces: seq<Piece>, lo: Key, hi: Key) {
    && pieces != []
    && pieces[0].from == lo
    && if |pieces| == 1 then pieces[0].to == hi
       else pieces[0].to != [] && Le(lo, pieces[0].to) && Ordered(pieces[0].to, hi) && Chain(pieces[1..], pieces[0].to, hi)
  }

  /** What a plan may look like: a chain over the whole range, or, when a routing answer did not
  advance, a chain up to the key that got stuck and one piece that holds nothing. */
  ghost predicate IsPlan(p: Plan, start: Key, end: Key) {
    if p.stuck then
      && p.pieces != []
      && var last := p.pieces[|p.pieces| - 1];
         && last.from == p.covered && last.to != [] && Le(last.to, p.covered)
         && (end == [] || Lt(last.to, end))
         && (if |p.pieces| == 1 then p.covered == start
             else Chain(p.pieces[..|p.pieces| - 1], start, p.covered) && Le(start, p.covered)
                  && (end == [] || Lt(p.covered, end)))
    else
      p.covered == end && Chain(p.pieces, start, end)
  }

  lemma {:induction false} ChainExtends(pieces: seq<Piece>, lo: Key, mid: Key, hi: Key)
    requires Chain(pieces, lo, mid) && mid != [] && Le(lo, mid) && Ordered(mid, hi)
    ensures Chain(pieces + [Piece(mid, hi)], lo, hi)
  {
    var longer := pieces + [Piece(mid, hi)];
    assert longer[0] == pieces[0] && longer[1..] == pieces[1..] + [Piece(mid, hi)];
    if |pieces| == 1 {
      assert longer[1..] == [Piece(mid, hi)];
    } else {
      var next := pieces[0].to;
      if Lt(next, mid) && Lt(mid, hi) {
        LtTransitive(next, mid, hi);
      }
      ChainExtends(pieces[1..], next, mid, hi);
    }
  }

  lemma ChainIsOrdered(pieces: seq<Piece>, lo: Key, hi: Key)
    requires Chain(pieces, lo, hi)
    requires |pieces| == 1 ==> Ordered(pieces[0].from, pieces[0].to)
    ensures Ordered(lo, hi)
  {
    if |pieces| > 1 && hi != [] {
      LeTransitive(lo, pieces[0].to, hi);
    }
  }

  /** A plan in the making, complete up to `cursor`. */
  ghost predicate Growing(pieces: seq<Piece>, start: Key, end: Key, cursor: Key) {
    && Le(start, cursor)
    && if pieces == [] then cursor == start
       else cursor != [] && (end == [] || Lt(cursor, end)) && Chain(pieces, start, cursor)
  }

  /** What one more routing answer makes of it. */
  lemma PlanGrows(pieces: seq<Piece>, start: Key, end: Key, cursor: Key, boundary: Key)
    requires Growing(pieces, start, end, cursor)
    ensures var longer := pieces + [Piece(cursor, ClampEnd(end, boundary))];
      if boundary == [] || (end != [] && Le(end, boundary)) then IsPlan(Plan(longer, end, false), start, end)
      else if Le(boundary, cursor) then IsPlan(Plan(longer, cursor, true), start, end)
      else Growing(longer, start, end, boundary)
  {
    var to := ClampEnd(end, boundary);
    var longer := pieces + [Piece(cursor, to)];
    assert longer[..|longer| - 1] == pieces;
    LeIsNotLt(boundary, cursor);
    LeIsNotLt(end, boundary);
    if pieces != [] && Ordered(cursor, to) {
      ChainExtends(pieces, start, cursor, to);
    }
    if Lt(cursor, boundary) {
      LeLtTransitive(start, cursor, boundary);
    }
  }

  /** One routing answer: the key asked about, and the region answered with. */
  datatype Routing = Routing(cursor: Key, region: Region)
  {
    /** The region ends at or before the key it was asked about, short of the end of the range. */
    predicate FailsToAdvance(end: Key) {
      region.endKey != [] && Le(region.endKey, cursor) && (end == [] || Lt(region.endKey, end))
    }
  }

  /** A region that holds a key reaches past it. */
  lemma ReachesPast(answer: Routing, end: Key)
    requires answer.region.Contains(answer.cursor)
    ensures !answer.FailsToAdvance(end)
  {
    LeIsNotLt(answer.region.endKey, answer.cursor);
  }

  /** Each question is about the key the answer before it reached. */
  ghost predicate Asks(log: seq<Routing>, start: Key, cursor: Key) {
    if log == [] then cursor == start
    else
      var last := log[|log| - 1];
      cursor == last.region.endKey && Asks(log[..|log| - 1], start, last.cursor)
  }

  /** The plan these answers make: one piece for each, and stuck exactly when the last did not advance. */
  ghost predicate Planned(log: seq<Routing>, p: Plan, start: Key, end: Key) {
    && log != [] && |p.pieces| == |log|
    && (forall i :: 0 <= i < |log| ==> p.pieces[i] == Piece(log[i].cursor, ClampEnd(end, log[i].region.endKey)))
    && var last := log[|log| - 1];
       && Asks(log[..|log| - 1], start, last.cursor)
       && (p.stuck <==> last.FailsToAdvance(end))
       && (p.stuck ==> p.covered == last.cursor)
  }

  lemma AsksMore(log: seq<Routing>, answer: Routing, start: Key)
    requires Asks(log, start, answer.cursor)
    ensures Asks(log + [answer], start, answer.region.endKey)
    ensures (log + [answer])[..|log|] == log
  {
  }

  /** Routing one step of a plan: the first lookup, and the one that repairs its refusal. */
  datatype Step = Step(route: Lookup, repair: Lookup) {
    ghost predicate Leads(key: Key, region: Region) {
      match Routed(route, key)
      case Ok(found) => found == region
      case Err(refusal) => Repaired(repair, key, refusal) == Ok(region)
    }

    ghost predicate Fails(key: Key, error: Error) {
      Routed(route, key).Err? && Repaired(repair, key, Routed(route, key).error) == Err(error)
    }
  }

  /** The answers given are those routing has for the keys asked about. */
  ghost predicate Obtained(routing: nat -> Step, log: seq<Routing>) {
    forall i :: 0 <= i < |log| ==> routing(i).Leads(log[i].cursor, log[i].region)
  }

  /** Every answer advanced and none reached the end of the range. */
  ghost predicate NeverThere(log: seq<Routing>, end: Key) {
    forall i :: 0 <= i < |log| ==>
      log[i].region.endKey != [] && (end == [] || Lt(log[i].region.endKey, end)) && Lt(log[i].cursor, log[i].region.endKey)
  }

  /** Why a plan fails: routing has no answer for the next key, or the regions are too many. */
  ghost predicate Unplanned(routing: nat -> Step, log: seq<Routing>, start: Key, end: Key, error: Error) {
    && Obtained(routing, log) && NeverThere(log, end)
    && if |log| == MAX_SCAN_REGIONS then error == InternalError(TooManyScanRegions)
       else exists cursor :: Asks(log, start, cursor) && routing(|log|).Fails(cursor, error)
  }

  /** One piece per region of `[start, end)`, in key order; `log` is what routing answered. */
  method RegionsOf(routing: nat -> Step, start: Key, end: Key) returns (r: Result<Plan, Error>, ghost log: seq<Routing>)
    ensures r.Ok? ==> IsPlan(r.value, start, end) && |r.value.pieces| <= MAX_SCAN_REGIONS
    ensures r.Ok? ==> Planned(log, r.value, start, end) && Obtained(routing, log)
    ensures r.Err? ==> |log| <= MAX_SCAN_REGIONS && Unplanned(routing, log, start, end, r.error)
  {
    hide Asks, Growing, IsPlan, ClampEnd, Lt, Routed, Repaired, Obtained, NeverThere;
    var pieces := [];
    var cursor := start;
    log := [];
    NothingPlanned(start, end);
    for i := 0 to MAX_SCAN_REGIONS
      invariant |pieces| == |log| == i
      invariant forall j :: 0 <= j < i ==> pieces[j] == Piece(log[j].cursor, ClampEnd(end, log[j].region.endKey))
      invariant Growing(pieces, start, end, cursor) && Asks(log, start, cursor)
      invariant Obtained(routing, log) && NeverThere(log, end)
    {
      var region;
      var routed := Route(routing(i).route, cursor);
      if routed.Ok? {
        region := routed.value;
      } else {
        var repaired := RepairRoute(routing(i).repair, cursor, routed.error);
        if repaired.Err? {
          return Err(repaired.error), log;
        }
        region := repaired.value;
      }
      var boundary := region.endKey;
      AsksMore(log, Routing(cursor, region), start);
      ObtainedMore(routing, log, Routing(cursor, region), end);
      log := log + [Routing(cursor, region)];
      PlanGrows(pieces, start, end, cursor, boundary);
      pieces := pieces + [Piece(cursor, ClampEnd(end, boundary))];
      LeIsNotLt(end, boundary);
      if boundary == [] || (end != [] && Le(end, boundary)) {
        return Ok(Plan(pieces, end, false)), log;
      }
      LeIsNotLt(boundary, cursor);
      if Le(boundary, cursor) {
        return Ok(Plan(pieces, cursor, true)), log;
      }
      cursor := boundary;
      OnlyOne(log[i], end);
    }
    return Err(InternalError(TooManyScanRegions)), log;
  }

  lemma OnlyOne(answer: Routing, end: Key)
    requires answer.region.endKey != [] && (end == [] || Lt(answer.region.endKey, end))
    requires Lt(answer.cursor, answer.region.endKey)
    ensures NeverThere([answer], end)
  {
  }

  lemma ObtainedMore(routing: nat -> Step, log: seq<Routing>, answer: Routing, end: Key)
    requires Obtained(routing, log) && routing(|log|).Leads(answer.cursor, answer.region)
    ensures Obtained(routing, log + [answer])
    ensures NeverThere(log, end) && NeverThere([answer], end) ==> NeverThere(log + [answer], end)
  {
    hide Lt, Step.Leads;
  }

  lemma NothingPlanned(start: Key, end: Key)
    ensures Growing([], start, end, start) && Asks([], start, start)
    ensures NeverThere([], end) && forall routing: nat -> Step :: Obtained(routing, [])
  {
  }

  // -- what a list of pieces stands for ------------------------------------------------

  /** The pairs a walk over `pieces` has still to meet. */
  ghost function Todo(db: Database, pieces: seq<Piece>, reverse: bool): seq<Pair> {
    if pieces == [] then []
    else Visit(db, pieces[0].from, pieces[0].to, reverse) + Todo(db, pieces[1..], reverse)
  }

  lemma {:induction false} TodoConcat(db: Database, a: seq<Piece>, b: seq<Piece>, reverse: bool)
    ensures Todo(db, a + b, reverse) == Todo(db, a, reverse) + Todo(db, b, reverse)
  {
    if a == [] {
      assert a + b == b;
    } else {
      assert (a + b)[1..] == a[1..] + b;
      TodoConcat(db, a[1..], b, reverse);
    }
  }

  lemma TodoCons(db: Database, piece: Piece, pieces: seq<Piece>, reverse: bool)
    ensures Todo(db, [piece] + pieces, reverse) == Visit(db, piece.from, piece.to, reverse) + Todo(db, pieces, reverse)
  {
    assert ([piece] + pieces)[1..] == pieces;
  }

  lemma TodoOne(db: Database, piece: Piece, reverse: bool)
    ensures Todo(db, [piece], reverse) == Visit(db, piece.from, piece.to, reverse)
  {
    assert [piece][1..] == [];
  }

  lemma TodoNothing(db: Database, reverse: bool)
    ensures Todo(db, [], reverse) == []
  {
  }

  function Walk(pieces: seq<Piece>, reverse: bool): (r: seq<Piece>)
    ensures |r| == |pieces|
  {
    if reverse then Reverse(pieces) else pieces
  }

  lemma {:induction false} ChainCovers(db: Database, pieces: seq<Piece>, lo: Key, hi: Key, reverse: bool)
    requires Chain(pieces, lo, hi)
    ensures Todo(db, Walk(pieces, reverse), reverse) == Visit(db, lo, hi, reverse)
  {
    TodoOne(db, pieces[0], reverse);
    if |pieces| == 1 {
      assert Walk(pieces, reverse) == [pieces[0]];
    } else {
      var mid := pieces[0].to;
      ChainCovers(db, pieces[1..], mid, hi, reverse);
      SplitRange(db, lo, mid, hi);
      if reverse {
        assert Reverse(pieces) == Reverse(pieces[1..]) + [pieces[0]];
        TodoConcat(db, Reverse(pieces[1..]), [pieces[0]], true);
      }
    }
  }

  /** A plan's pieces, visited in order, are exactly the range they cover. */
  lemma PlanCovers(db: Database, p: Plan, start: Key, end: Key, reverse: bool)
    requires IsPlan(p, start, end)
    ensures Todo(db, Walk(p.pieces, reverse), reverse) == Visit(db, start, p.covered, reverse)
  {
    if p.stuck {
      var n := |p.pieces| - 1;
      var last := p.pieces[n];
      CrossedBounds(db, last.from, last.to);
      TodoOne(db, last, reverse);
      assert Walk(p.pieces, reverse) == if reverse then [last] + Walk(p.pieces[..n], true) else p.pieces[..n] + [last];
      if reverse {
        TodoConcat(db, [last], Walk(p.pieces[..n], true), true);
      } else {
        TodoConcat(db, p.pieces[..n], [last], false);
      }
      if n > 0 {
        ChainCovers(db, p.pieces[..n], start, p.covered, reverse);
      } else {
        LeIsNotLt(last.to, start);
        CrossedBounds(db, start, start);
      }
    } else {
      ChainCovers(db, p.pieces, start, end, reverse);
    }
  }

  /** Planning is exact precisely when the last routing answer advanced: for a range that can hold a key,
  the plan these answers make reads what the range holds, in every database, if and only if the last of
  them did not end at or before the key it was asked about, short of the end of the range. */
  lemma ExactUnlessStuck(log: seq<Routing>, p: Plan, start: Key, end: Key)
    requires IsPlan(p, start, end) && Planned(log, p, start, end) && (end == [] || Lt(start, end))
    ensures !log[|log| - 1].FailsToAdvance(end)
      <==> forall db: Database :: Select(db, start, p.covered) == Select(db, start, end)
  {
    if p.stuck {
      var lost: Database := [Pair(p.covered, [])];
      LtIrreflexive(p.covered);
      LtIrreflexive(start);
      assert lost[1..] == [];
      assert Owns(start, end, p.covered) && !Owns(start, p.covered, p.covered);
      assert p.covered != [] by {
        var last := p.pieces[|p.pieces| - 1];
        assert last.to != [] && Le(last.to, p.covered);
      }
      assert Select(lost, start, p.covered) != Select(lost, start, end);
    }
  }

  /** Such an answer: asked about key 5 of a scan from 5 to 9, a region that ends at 4. The plan is one piece
  that holds nothing, and a scan of it misses the pair at 6. */
  lemma PlanCanGetStuck(region: Region, value: seq<Byte>)
    requires region.endKey == [4]
    ensures var p := Plan([Piece([5], [4])], [5], true);
      var db := [Pair([6], value)];
      && IsPlan(p, [5], [9]) && Planned([Routing([5], region)], p, [5], [9])
      && Sorted(db) && Select(db, [5], [5]) == [] && Select(db, [5], [9]) == db
  {
    var four: Key, five: Key, six: Key, nine: Key := [4], [5], [6], [9];
    assert Lt(four, five) && Lt(four, nine) && Lt(five, six) && Lt(six, nine) && !Lt(six, five);
    var db: seq<Pair> := [Pair(six, value)];
    assert db[1..] == [];
    assert Owns(five, nine, six) && !Owns(five, five, six);
  }

  // -- the scan ------------------------------------------------------------------------

  /** What a store is asked: a lower and an upper bound, after how many refusals in a row. */
  datatype Asked = Asked(from: Key, to: Key, tries: nat)

  /** The calls of one scan: what each of them meets, the page asked for and the direction. */
  datatype Scan = Scan(stores: nat -> Moment, page: u32, reverse: bool) {
    /** A reverse scan names its bounds the other way round. */
    function Request(a: Asked): ScanReq {
      if reverse then ScanReq(a.to, a.from, page, true) else ScanReq(a.from, a.to, page, false)
    }

    ghost function Told(n: nat, a: Asked): Result<seq<Pair>, Error> {
      Answered(stores(n).reply, Request(a))
    }

    /** Call `n` is refused as only a store that no longer holds all of the range does. */
    ghost predicate Refuses(n: nat, a: Asked) {
      Told(n, a).Err? && Told(n, a).error.Store? && Told(n, a).error.refusal.KeyNotInRegion?
    }

    ghost function Mended(n: nat, a: Asked): (r: Result<Region, Error>)
      requires Refuses(n, a)
      ensures r.Err? ==> r.error == Told(n, a).error
    {
      Repaired(stores(n).repair, a.from, Told(n, a).error.refusal)
    }

    /** The refusal is repaired, and is not one too many. */
    ghost predicate AsksAgain(n: nat, a: Asked) {
      Refuses(n, a) && a.tries < SCAN_ROUTE_REFRESHES && Mended(n, a).Ok?
    }

    /** What is asked next: the same range, up to where the repaired region ends. */
    ghost function Narrower(n: nat, a: Asked): Asked
      requires AsksAgain(n, a)
    {
      Asked(a.from, ClampEnd(a.to, Mended(n, a).value.endKey), a.tries + 1)
    }

    /** What is asked after `k` refusals, the first call being number `at`. */
    ghost function Nth(at: nat, from: Key, to: Key, k: nat): Asked {
      if k == 0 then Asked(from, to, 0)
      else
        var a := Nth(at, from, to, k - 1);
        if AsksAgain(at + k - 1, a) then Narrower(at + k - 1, a) else a
    }

    /** The call after `i` refusals is itself refused and repaired. */
    ghost predicate RefusedAt(at: nat, from: Key, to: Key, i: nat) {
      AsksAgain(at + i, Nth(at, from, to, i))
    }

    /** The first `k` calls are refused and repaired. */
    ghost predicate Refused(at: nat, from: Key, to: Key, k: nat) {
      forall i :: 0 <= i < k ==> RefusedAt(at, from, to, i)
    }

    /** Where the region found after refusal `i` ends. */
    ghost function Found(at: nat, from: Key, to: Key, i: nat): Key
      requires RefusedAt(at, from, to, i)
    {
      Mended(at + i, Nth(at, from, to, i)).value.endKey
    }

    /** A failure that ends the scan: any but a refusal that can be repaired. */
    ghost predicate Fatal(n: nat, a: Asked) {
      Told(n, a).Err? && !AsksAgain(n, a)
    }
  }

  lemma NthMore(scan: Scan, at: nat, from: Key, to: Key, k: nat)
    requires scan.RefusedAt(at, from, to, k)
    ensures var a, found := scan.Nth(at, from, to, k), scan.Found(at, from, to, k);
      && a.tries < SCAN_ROUTE_REFRESHES && (found == [] || Lt(a.from, found))
      && scan.Nth(at, from, to, k + 1) == Asked(a.from, ClampEnd(a.to, found), a.tries + 1)
  {
    hide Lt, ClampEnd, Scan.Told, Repaired;
  }

  lemma RefusedFewer(scan: Scan, at: nat, from: Key, to: Key, k: nat)
    requires scan.Refused(at, from, to, k) && k > 0
    ensures scan.Refused(at, from, to, k - 1) && scan.RefusedAt(at, from, to, k - 1)
  {
    hide Scan.RefusedAt;
  }

  lemma {:induction false} NthTries(scan: Scan, at: nat, from: Key, to: Key, k: nat)
    requires scan.Refused(at, from, to, k)
    ensures scan.Nth(at, from, to, k).tries == k && scan.Nth(at, from, to, k).from == from
    decreases k
  {
    hide Scan.RefusedAt, Scan.Refused;
    if k > 0 {
      hide Scan.Nth;
      RefusedFewer(scan, at, from, to, k);
      NthTries(scan, at, from, to, k - 1);
      NthMore(scan, at, from, to, k - 1);
    }
  }

  /** Bounds in order, an open one being the last. */
  predicate AtMost(a: Key, b: Key) {
    b == [] || (a != [] && Le(a, b))
  }

  lemma AtMostTransitive(a: Key, b: Key, c: Key)
    requires AtMost(a, b) && AtMost(b, c)
    ensures AtMost(a, c)
  {
    if c != [] {
      LeTransitive(a, b, c);
    }
  }

  /** The range is read up to the tightest of the bound asked for and those the repairs found. */
  lemma {:induction false} TightestBound(scan: Scan, at: nat, from: Key, to: Key, k: nat)
    requires scan.Refused(at, from, to, k)
    ensures var bound := scan.Nth(at, from, to, k).to;
      && AtMost(bound, to)
      && (forall i :: 0 <= i < k ==> AtMost(bound, scan.Found(at, from, to, i)))
      && (bound == to || exists i :: 0 <= i < k && bound == scan.Found(at, from, to, i))
    decreases k
  {
    hide Scan.RefusedAt, Scan.Found, Lt;
    if k > 0 {
      hide Scan.Nth;
      var last := scan.Nth(at, from, to, k - 1);
      TightestBound(scan, at, from, to, k - 1);
      NthMore(scan, at, from, to, k - 1);
      var bound := scan.Nth(at, from, to, k).to;
      hide ClampEnd;
      AtMostTransitive(bound, last.to, to);
      forall i | 0 <= i < k - 1
        ensures AtMost(bound, scan.Found(at, from, to, i))
      {
        AtMostTransitive(bound, last.to, scan.Found(at, from, to, i));
      }
    }
  }

  /** A bound a scan may be narrowed to: the one asked for, or one strictly inside. */
  predicate Within(from: Key, to: Key, bound: Key) {
    bound == to || (bound != [] && Lt(from, bound) && (to == [] || Lt(bound, to)))
  }

  lemma {:induction false} NthWithin(scan: Scan, at: nat, from: Key, to: Key, k: nat)
    requires scan.Refused(at, from, to, k)
    ensures Within(from, to, scan.Nth(at, from, to, k).to)
    decreases k
  {
    hide Scan.RefusedAt, Scan.Refused, Scan.Found, Lt;
    if k > 0 {
      hide Scan.Nth, Within;
      RefusedFewer(scan, at, from, to, k);
      NthWithin(scan, at, from, to, k - 1);
      NthTries(scan, at, from, to, k - 1);
      NthMore(scan, at, from, to, k - 1);
      NarrowsWithin(from, to, scan.Nth(at, from, to, k - 1).to, scan.Found(at, from, to, k - 1));
    }
  }

  lemma NarrowsWithin(from: Key, to: Key, bound: Key, found: Key)
    requires Within(from, to, bound) && (found == [] || Lt(from, found))
    ensures Within(from, to, ClampEnd(bound, found))
  {
    if found != [] && Lt(found, bound) && Lt(bound, to) {
      LtTransitive(found, bound, to);
    }
  }

  /** How one region's worth ends: served as last asked, or with the failure of the last call. */
  ghost predicate Concludes(scan: Scan, n: nat, a: Asked, r: Result<(seq<Pair>, Key), Error>) {
    match scan.Told(n, a)
    case Ok(pairs) => r == Ok((pairs, a.to))
    case Err(error) => scan.Fatal(n, a) && r == Err(error)
  }

  /** What one answer, and the repair of a refusal, make of a region's worth. */
  lemma OneAnswerMore(scan: Scan, n: nat, a: Asked, error: Error)
    requires scan.Told(n, a) == Err(error)
    ensures !(error.Store? && error.refusal.KeyNotInRegion? && a.tries < SCAN_ROUTE_REFRESHES) ==>
      Concludes(scan, n, a, Err(error))
    ensures error.Store? && error.refusal.KeyNotInRegion? && a.tries < SCAN_ROUTE_REFRESHES ==>
      var repaired := Repaired(scan.stores(n).repair, a.from, error.refusal);
      if repaired.Ok? then scan.AsksAgain(n, a) && scan.Mended(n, a) == repaired
      else repaired.error == error && Concludes(scan, n, a, Err(error))
  {
    hide Answered, Lt;
  }

  lemma RefusedMore(scan: Scan, at: nat, from: Key, to: Key, k: nat)
    requires scan.Refused(at, from, to, k) && scan.AsksAgain(at + k, scan.Nth(at, from, to, k))
    ensures scan.Refused(at, from, to, k + 1)
    ensures scan.Found(at, from, to, k) == scan.Mended(at + k, scan.Nth(at, from, to, k)).value.endKey
  {
    hide Scan.AsksAgain, Scan.Mended, Scan.Nth;
  }

  /** One region's worth, and the upper bound it was actually read to: a store that refuses has split, and the
  range is narrowed to what it still owns before it is asked again. `used` is how many calls that took. */
  method ScanRegion(ghost db: Database, scan: Scan, at: nat, from: Key, to: Key)
    returns (r: Result<(seq<Pair>, Key), Error>, used: nat)
    requires scan.page > 0 && forall n :: Honest(db, scan.stores(n).reply)
    ensures 1 <= used <= SCAN_ROUTE_REFRESHES + 1
    ensures scan.Refused(at, from, to, used - 1) && Concludes(scan, at + used - 1, scan.Nth(at, from, to, used - 1), r)
    ensures r.Ok? ==>
      var (batch, reached) := r.value;
      && Ordered(from, reached) && Within(from, to, reached)
      && IsAnswer(Visit(db, from, reached, scan.reverse), scan.page, batch)
    ensures r.Err? ==> !r.error.InternalError?
  {
    hide Answered, Repaired, ClampEnd, Lt, IsAnswer, Visit, Within, Concludes, Honest, Scan.AsksAgain, Scan.RefusedAt,
      Scan.Refused, Scan.Found, Scan.Mended;
    var narrowed := to;
    var refreshes := 0;
    NoneRefused(scan, at, from, to);
    hide Scan.Nth;
    while true
      invariant refreshes <= SCAN_ROUTE_REFRESHES
      invariant scan.Refused(at, from, to, refreshes)
      invariant scan.Nth(at, from, to, refreshes) == Asked(from, narrowed, refreshes)
      decreases SCAN_ROUTE_REFRESHES - refreshes
    {
      var request :=
        if scan.reverse then ScanReq(narrowed, from, scan.page, true) else ScanReq(from, narrowed, scan.page, false);
      var moment := scan.stores(at + refreshes);
      var answer := CallScan(moment.reply, request);
      AnsweredHonestly(db, moment.reply, request);
      NthWithin(scan, at, from, to, refreshes);
      ghost var asked := Asked(from, narrowed, refreshes);
      match answer
      case Ok(pairs) =>
        ServedConcludes(scan, at + refreshes, asked);
        return Ok((pairs, narrowed)), refreshes + 1;
      case Err(error) =>
        OneAnswerMore(scan, at + refreshes, asked, error);
        if !(error.Store? && error.refusal.KeyNotInRegion? && refreshes < SCAN_ROUTE_REFRESHES) {
          return Err(error), refreshes + 1;
        }
        refreshes := refreshes + 1;
        var repaired := RepairRoute(moment.repair, from, error.refusal);
        if repaired.Err? {
          return Err(repaired.error), refreshes;
        }
        RefusedMore(scan, at, from, to, refreshes - 1);
        RefusedIn(scan, at, from, to, refreshes, refreshes - 1);
        NthMore(scan, at, from, to, refreshes - 1);
        narrowed := ClampEnd(narrowed, repaired.value.endKey);
    }
  }

  lemma NoneRefused(scan: Scan, at: nat, from: Key, to: Key)
    ensures scan.Refused(at, from, to, 0) && scan.Nth(at, from, to, 0) == Asked(from, to, 0)
  {
  }

  lemma RefusedIn(scan: Scan, at: nat, from: Key, to: Key, k: nat, i: nat)
    requires scan.Refused(at, from, to, k) && i < k
    ensures scan.RefusedAt(at, from, to, i) && scan.AsksAgain(at + i, scan.Nth(at, from, to, i))
  {
    hide Scan.AsksAgain, Scan.Nth;
    assert scan.RefusedAt(at, from, to, i);
  }

  lemma ServedConcludes(scan: Scan, n: nat, a: Asked)
    requires scan.Told(n, a).Ok?
    ensures Concludes(scan, n, a, Ok((scan.Told(n, a).value, a.to)))
  {
  }

  /** What the calls meet decides how many are made: a region's worth has one conclusion. */
  lemma OneConclusion(scan: Scan, at: nat, from: Key, to: Key, j: nat, k: nat)
    requires scan.Refused(at, from, to, j) && !scan.AsksAgain(at + j, scan.Nth(at, from, to, j))
    requires scan.Refused(at, from, to, k) && !scan.AsksAgain(at + k, scan.Nth(at, from, to, k))
    ensures j == k
  {
    hide Scan.Refused, Scan.AsksAgain, Scan.Nth;
    if j < k {
      RefusedIn(scan, at, from, to, k, j);
    } else if k < j {
      RefusedIn(scan, at, from, to, j, k);
    }
  }

  /** The call after `i` refusals is refused by a store that names its region, and the lookup of the lower bound
  is repaired. */
  ghost predicate RepairedAt(scan: Scan, at: nat, from: Key, to: Key, i: nat) {
    match scan.Told(at + i, scan.Nth(at, from, to, i))
    case Err(Store(KeyNotInRegion(key, id, first, last))) =>
      Repaired(scan.stores(at + i).repair, from, KeyNotInRegion(key, id, first, last)).Ok?
    case _ => false
  }

  /** Up to four refusals that name a region, each repaired, and then an answer: the answer is what one
  region's worth comes to, read as far as the tightest bound. */
  lemma ServedAfterRefusals(scan: Scan, at: nat, from: Key, to: Key, k: nat, used: nat, r: Result<(seq<Pair>, Key), Error>)
    requires k <= SCAN_ROUTE_REFRESHES && used >= 1
    requires scan.Refused(at, from, to, used - 1) && Concludes(scan, at + used - 1, scan.Nth(at, from, to, used - 1), r)
    requires forall i :: 0 <= i < k ==> RepairedAt(scan, at, from, to, i)
    requires scan.Told(at + k, scan.Nth(at, from, to, k)).Ok?
    ensures used == k + 1
    ensures r == Ok((scan.Told(at + k, scan.Nth(at, from, to, k)).value, scan.Nth(at, from, to, k).to))
  {
    hide Answered, Scan.Refused, Scan.Nth, RepairedAt;
    AllRefused(scan, at, from, to, k);
    OneConclusion(scan, at, from, to, used - 1, k);
  }

  lemma {:induction false} AllRefused(scan: Scan, at: nat, from: Key, to: Key, k: nat)
    requires k <= SCAN_ROUTE_REFRESHES && forall i :: 0 <= i < k ==> RepairedAt(scan, at, from, to, i)
    ensures scan.Refused(at, from, to, k)
    decreases k
  {
    hide RepairedAt, Scan.Refused, Scan.RefusedAt, Scan.Nth, Scan.AsksAgain, Scan.Told, Scan.Mended;
    if k == 0 {
      NoneRefused(scan, at, from, to);
    } else {
      AllRefused(scan, at, from, to, k - 1);
      NthTries(scan, at, from, to, k - 1);
      RepairedIsAsked(scan, at, from, to, k - 1);
      RefusedMore(scan, at, from, to, k - 1);
    }
  }

  lemma RepairedIsAsked(scan: Scan, at: nat, from: Key, to: Key, i: nat)
    requires RepairedAt(scan, at, from, to, i)
    requires scan.Nth(at, from, to, i).from == from && scan.Nth(at, from, to, i).tries < SCAN_ROUTE_REFRESHES
    ensures scan.AsksAgain(at + i, scan.Nth(at, from, to, i))
  {
    hide Answered, Repaired, Scan.Nth;
  }

  /** A split is survived: a store that holds the range only up to `m` refuses it, the refusal is believed, and
  the next call, to any store that holds the range up to `m`, is served and read that far. */
  lemma SplitIsSurvived(scan: Scan, at: nat, from: Key, to: Key)
    requires scan.stores(at).reply.From? && scan.stores(at + 1).reply.From?
    requires var region := scan.stores(at).reply.region;
      && region.id != 0 && region.Contains(from) && region.endKey != [] && (to == [] || Lt(region.endKey, to))
      && (scan.stores(at).repair.Known(from).Some? || scan.stores(at).repair.driver(0) == Ok(Some(region)))
      && ContainsRange(scan.stores(at + 1).reply.region, from, region.endKey)
    ensures scan.Refused(at, from, to, 1)
    ensures scan.Nth(at, from, to, 1) == Asked(from, scan.stores(at).reply.region.endKey, 1)
    ensures scan.Told(at + 1, scan.Nth(at, from, to, 1)).Ok?
  {
    var region := scan.stores(at).reply.region;
    var first := Asked(from, to, 0);
    if to != [] {
      LtTransitive(from, region.endKey, to);
      LeIsNotLt(to, region.endKey);
    }
    assert scan.Told(at, first) == Err(Store(KeyNotInRegion(from, region.id, region.startKey, region.endKey)));
    assert scan.AsksAgain(at, first);
    assert scan.Nth(at, from, to, 0) == first;
    assert scan.Nth(at, from, to, 1) == Asked(from, region.endKey, 1);
  }

  /** A page size the transport can answer: never zero. */
  function BoundedLimit(limit: u32, maxScanLimit: u32): (page: u32)
    ensures 1 <= page && (maxScanLimit > 0 ==> page <= maxScanLimit)
    ensures 0 < limit <= maxScanLimit ==> page == limit
    ensures limit == 0 && DEFAULT_SCAN_LIMIT <= maxScanLimit ==> page == DEFAULT_SCAN_LIMIT
    ensures maxScanLimit > 0 && page < maxScanLimit ==> page == limit || (limit == 0 && page == DEFAULT_SCAN_LIMIT)
  {
    var asked := if limit == 0 then DEFAULT_SCAN_LIMIT else limit;
    var ceiling := if maxScanLimit == 0 then 1 else maxScanLimit;
    if asked < ceiling then asked else ceiling
  }

  /** How many store calls a walk can need: one per pair, one per piece, and for each split that
  raced it one more piece and, downwards, one answer thrown away. */
  function WorkBound(pairs: nat, pieces: nat, work: Work, reverse: bool): nat {
    pairs + pieces + (if reverse then 2 else 1) * work.narrowings
  }

  lemma Assoc<T>(a: seq<T>, b: seq<T>, c: seq<T>)
    ensures (a + b) + c == a + (b + c)
  {
  }

  lemma NarrowForward(db: Database, from: Key, reached: Key, to: Key, pieces: seq<Piece>)
    requires reached != [] && Le(from, reached) && Ordered(reached, to)
    ensures Visit(db, from, to, false) + Todo(db, pieces, false)
      == Visit(db, from, reached, false) + Todo(db, [Piece(reached, to)] + pieces, false)
  {
    SplitRange(db, from, reached, to);
    TodoCons(db, Piece(reached, to), pieces, false);
    Assoc(Visit(db, from, reached, false), Visit(db, reached, to, false), Todo(db, pieces, false));
  }

  lemma NarrowReverse(db: Database, from: Key, reached: Key, to: Key, pieces: seq<Piece>)
    requires reached != [] && Le(from, reached) && Ordered(reached, to)
    ensures Visit(db, from, to, true) + Todo(db, pieces, true)
      == Todo(db, [Piece(reached, to)] + ([Piece(from, reached)] + pieces), true)
  {
    SplitRange(db, from, reached, to);
    TodoCons(db, Piece(from, reached), pieces, true);
    TodoCons(db, Piece(reached, to), [Piece(from, reached)] + pieces, true);
    Assoc(Visit(db, reached, to, true), Visit(db, from, reached, true), Todo(db, pieces, true));
  }

  /** What a piece needs next: nothing, its own remainder, or the pieces it was cut into. */
  datatype Turn = Finished | Resume(rest: Piece) | Replanned

  /** The pairs still to meet after one turn. */
  ghost function Left(db: Database, turn: Turn, pieces: seq<Piece>, reverse: bool): seq<Pair> {
    match turn
    case Resume(rest) => Visit(db, rest.from, rest.to, reverse) + Todo(db, pieces, reverse)
    case _ => Todo(db, pieces, reverse)
  }

  lemma AfterBatch(db: Database, piece: Piece, batch: seq<Pair>, turn: Turn, pieces: seq<Piece>, reverse: bool)
    requires batch <= Visit(db, piece.from, piece.to, reverse)
    requires !turn.Replanned?
    requires turn.Finished? ==> |batch| == |Visit(db, piece.from, piece.to, reverse)|
    requires turn.Resume? ==>
      Visit(db, turn.rest.from, turn.rest.to, reverse) == Visit(db, piece.from, piece.to, reverse)[|batch|..]
    ensures Visit(db, piece.from, piece.to, reverse) + Todo(db, pieces, reverse) == batch + Left(db, turn, pieces, reverse)
  {
    var visit := Visit(db, piece.from, piece.to, reverse);
    assert visit == batch + visit[|batch|..];
    Assoc(batch, visit[|batch|..], Todo(db, pieces, reverse));
    assert turn.Finished? ==> visit[|batch|..] == [];
  }

  /** Every piece has its bounds in order. */
  ghost predicate InOrder(pieces: seq<Piece>) {
    forall i :: 0 <= i < |pieces| ==> Ordered(pieces[i].from, pieces[i].to)
  }

  /** Takes in one page of `piece`, read up to `reached`: puts back whatever part a split has taken away, and
  says where the walk goes on. */
  method TakePage(ghost db: Database, piece: Piece, ghost page: u32, reverse: bool, queue: seq<Piece>,
                  batch: seq<Pair>, reached: Key)
    returns (r: seq<Pair>, pieces: seq<Piece>, turn: Turn, narrowed: bool)
    requires page > 0 && Ordered(piece.from, reached) && Within(piece.from, piece.to, reached)
    requires IsAnswer(Visit(db, piece.from, reached, reverse), page, batch)
    ensures Visit(db, piece.from, piece.to, reverse) + Todo(db, queue, reverse) == r + Left(db, turn, pieces, reverse)
    ensures |r| <= page && (turn.Resume? ==> r != [])
    ensures narrowed <==> reached != piece.to
    ensures turn.Replanned? <==> narrowed && reverse
    ensures |pieces| == |queue| + (if !narrowed then 0 else if reverse then 2 else 1)
    ensures Ordered(piece.from, piece.to)
    ensures InOrder(queue) ==> InOrder(pieces) && (turn.Resume? ==> Ordered(turn.rest.from, turn.rest.to))
  {
    hide Todo;
    pieces, turn, narrowed := queue, Finished, false;
    var from, to := piece.from, piece.to;
    if reached != to {
      narrowed := true;
      if Lt(reached, to) {
        LtTransitive(from, reached, to);
      }
      if reverse {
        NarrowReverse(db, from, reached, to, queue);
        return [], [Piece(reached, to)] + ([Piece(from, reached)] + queue), Replanned, true;
      }
      NarrowForward(db, from, reached, to, queue);
      pieces := [Piece(reached, to)] + pieces;
      to := reached;
    }
    if batch != [] {
      var last := batch[|batch| - 1].key;
      if reverse {
        ResumeReverse(db, from, to, |batch|);
        LeIsNotLt(last, from);
        turn := if Le(last, from) then Finished else Resume(Piece(from, last));
      } else {
        ResumeForward(db, from, to, |batch|);
        var next := last + [0];
        LeIsNotLt(to, next);
        turn := if to != [] && Le(to, next) then Finished else Resume(Piece(next, to));
      }
    }
    AfterBatch(db, Piece(from, to), batch, turn, pieces, reverse);
    return batch, pieces, turn, narrowed;
  }

  // -- the calls of a whole walk -------------------------------------------------------

  /** What is asked in call `n + 1`: after a repaired refusal the narrower range, and otherwise, the call having
  been served, something new. */
  ghost predicate Follows(scan: Scan, trail: seq<Asked>, n: nat)
    requires n + 1 < |trail|
  {
    if scan.AsksAgain(n, trail[n]) then trail[n + 1] == scan.Narrower(n, trail[n])
    else scan.Told(n, trail[n]).Ok? && trail[n + 1].tries == 0
  }

  /** The calls a scan may make, given what each of them meets. */
  ghost predicate Course(scan: Scan, trail: seq<Asked>) {
    && (trail != [] ==> trail[0].tries == 0)
    && forall n :: 0 <= n < |trail| - 1 ==> Follows(scan, trail, n)
  }

  /** And the last of them was served. */
  ghost predicate Smooth(scan: Scan, trail: seq<Asked>) {
    Course(scan, trail) && (trail != [] ==> scan.Told(|trail| - 1, trail[|trail| - 1]).Ok?)
  }

  ghost function Segment(scan: Scan, at: nat, from: Key, to: Key, used: nat): (r: seq<Asked>)
    ensures |r| == used
  {
    seq(used, i requires 0 <= i < used => scan.Nth(at, from, to, i))
  }

  lemma CourseGoesOn(scan: Scan, trail: seq<Asked>, from: Key, to: Key, used: nat)
    requires Smooth(scan, trail) && used >= 1 && scan.Refused(|trail|, from, to, used - 1)
    ensures Course(scan, trail + Segment(scan, |trail|, from, to, used))
  {
    hide Scan.Told, Scan.Nth, Scan.AsksAgain;
    var at := |trail|;
    var longer := trail + Segment(scan, at, from, to, used);
    NoneRefused(scan, at, from, to);
    forall n | 0 <= n < |longer| - 1
      ensures Follows(scan, longer, n)
    {
      if n < at - 1 {
        assert Follows(scan, trail, n);
      } else if n >= at {
        NthFollows(scan, at, from, to, n - at);
      } else {
        ServedIsNotAskedAgain(scan, n, trail[n]);
      }
    }
  }

  lemma NthFollows(scan: Scan, at: nat, from: Key, to: Key, i: nat)
    requires scan.RefusedAt(at, from, to, i)
    ensures scan.AsksAgain(at + i, scan.Nth(at, from, to, i))
    ensures scan.Nth(at, from, to, i + 1) == scan.Narrower(at + i, scan.Nth(at, from, to, i))
  {
    hide Scan.AsksAgain, Scan.Narrower;
  }

  lemma ServedIsNotAskedAgain(scan: Scan, n: nat, a: Asked)
    requires scan.Told(n, a).Ok?
    ensures !scan.AsksAgain(n, a)
  {
  }

  ghost predicate TrailInOrder(trail: seq<Asked>) {
    forall i :: 0 <= i < |trail| ==> Ordered(trail[i].from, trail[i].to)
  }

  lemma SegmentInOrder(scan: Scan, at: nat, from: Key, to: Key, used: nat)
    requires used >= 1 && scan.Refused(at, from, to, used - 1) && Ordered(from, to)
    ensures TrailInOrder(Segment(scan, at, from, to, used))
  {
    hide Scan.Nth, Scan.AsksAgain;
    forall i | 0 <= i < used
      ensures Ordered(scan.Nth(at, from, to, i).from, scan.Nth(at, from, to, i).to)
    {
      NthTries(scan, at, from, to, i);
      NthWithin(scan, at, from, to, i);
    }
  }

  /** The walk's accounts, with `open` of `planned` pieces (and those splits added) still to finish
  and `done` finished: every call brought a pair, finished a piece or, downwards, met a split. */
  ghost predicate Books(work: Work, planned: nat, open: nat, pairs: nat, done: nat, reverse: bool) {
    && !work.capped
    && open + done == planned + work.narrowings
    && work.calls <= pairs + done + (if reverse then work.narrowings else 0)
    && work.calls <= MAX_SCAN_CALLS && pairs <= work.calls * 0xFFFF_FFFF
  }

  /** One more page, entered in the accounts. */
  lemma Entered(work: Work, planned: nat, open: nat, pairs: nat, done: nat, reverse: bool,
                batch: nat, narrowed: bool, turn: Turn, open': nat)
    requires Books(work, planned, open, pairs, done, reverse) && open > 0 && work.calls < MAX_SCAN_CALLS
    requires batch <= 0xFFFF_FFFF && (turn.Resume? ==> batch > 0) && (turn.Replanned? <==> narrowed && reverse)
    requires open' == open - 1 + (if !narrowed then 0 else if reverse then 2 else 1)
    ensures var work' := Work(work.calls + 1, work.narrowings + (if narrowed then 1 else 0), false);
      match turn
      case Finished => Books(work', planned, open', pairs + batch, done + 1, reverse)
      case Resume(_) => Books(work', planned, open' + 1, pairs + batch, done, reverse)
      case Replanned => Books(work', planned, open', pairs + batch, done, reverse)
  {
  }

  /** What the accounts say of the calls made. */
  lemma Balanced(work: Work, planned: nat, open: nat, pairs: nat, done: nat, reverse: bool, full: nat)
    requires Books(work, planned, open, pairs, done, reverse) && pairs <= full
    ensures work.calls <= WorkBound(full, planned, work, reverse) && work.calls <= MAX_SCAN_CALLS && !work.capped
    ensures pairs <= MAX_SCAN_CALLS * 0xFFFF_FFFF
    ensures open > 0 && work.calls == MAX_SCAN_CALLS ==> MAX_SCAN_CALLS < WorkBound(full, planned, work, reverse)
  {
  }

  lemma Opened(planned: nat, reverse: bool)
    ensures Books(Work(0, 0, false), planned, planned, 0, 0, reverse)
  {
  }

  /** The calls made so far: each was served, or refused and repaired, and the last was served. */
  ghost predicate Trodden(scan: Scan, trail: seq<Asked>, ordered: bool) {
    Smooth(scan, trail) && (ordered ==> TrailInOrder(trail))
  }

  /** The calls made, the last of which failed in a way that ends the scan. */
  ghost predicate Broken(scan: Scan, trail: seq<Asked>, ordered: bool, error: Error) {
    && Course(scan, trail) && (ordered ==> TrailInOrder(trail))
    && trail != [] && scan.Fatal(|trail| - 1, trail[|trail| - 1])
    && scan.Told(|trail| - 1, trail[|trail| - 1]) == Err(error)
  }

  lemma PageTaken(scan: Scan, trail: seq<Asked>, from: Key, to: Key, used: nat, ordered: bool,
                  r: Result<(seq<Pair>, Key), Error>)
    requires Trodden(scan, trail, ordered) && used >= 1 && scan.Refused(|trail|, from, to, used - 1)
    requires Concludes(scan, |trail| + used - 1, scan.Nth(|trail|, from, to, used - 1), r)
    requires ordered ==> Ordered(from, to)
    ensures var longer := trail + Segment(scan, |trail|, from, to, used);
      if r.Ok? then Trodden(scan, longer, ordered) else Broken(scan, longer, ordered, r.error)
  {
    hide Scan.Nth, Scan.Refused, Scan.AsksAgain, Scan.Told, Course;
    CourseGoesOn(scan, trail, from, to, used);
    if ordered {
      SegmentInOrder(scan, |trail|, from, to, used);
    }
  }

  lemma NothingTrodden(scan: Scan, ordered: bool)
    ensures Trodden(scan, [], ordered)
  {
  }

  /** Asks for one page of `piece` and takes it in. */
  method AskForPage(ghost db: Database, scan: Scan, piece: Piece, queue: seq<Piece>, at: nat,
                    ghost before: seq<Asked>, ghost ordered: bool)
    returns (r: Result<seq<Pair>, Error>, pieces: seq<Piece>, turn: Turn, narrowed: bool, now: nat, ghost trail: seq<Asked>)
    requires scan.page > 0 && forall n :: Honest(db, scan.stores(n).reply)
    requires |before| == at && Trodden(scan, before, ordered)
    requires ordered ==> InOrder(queue) && Ordered(piece.from, piece.to)
    ensures r.Ok? ==>
      && Visit(db, piece.from, piece.to, scan.reverse) + Todo(db, queue, scan.reverse)
         == r.value + Left(db, turn, pieces, scan.reverse)
      && |r.value| <= scan.page
      && (turn.Resume? ==> r.value != [])
      && (turn.Replanned? <==> narrowed && scan.reverse)
      && |pieces| == |queue| + (if !narrowed then 0 else if scan.reverse then 2 else 1)
      && Ordered(piece.from, piece.to)
      && (ordered ==> InOrder(pieces) && (turn.Resume? ==> Ordered(turn.rest.from, turn.rest.to)))
    ensures r.Err? ==> !r.error.InternalError?
    ensures if r.Ok? then Trodden(scan, trail, ordered) else Broken(scan, trail, ordered, r.error)
    ensures |trail| == now && before <= trail
  {
    hide Visit, Todo, Lt, Trodden, Broken, Concludes, Scan.Refused, Scan.Nth, Honest, IsAnswer, Within, InOrder, Left;
    pieces, turn, narrowed := queue, Finished, false;
    var scanned, used;
    scanned, used := ScanRegion(db, scan, at, piece.from, piece.to);
    PageTaken(scan, before, piece.from, piece.to, used, ordered, scanned);
    trail, now := before + Segment(scan, at, piece.from, piece.to, used), at + used;
    if scanned.Err? {
      return Err(scanned.error), pieces, turn, narrowed, now, trail;
    }
    var batch;
    batch, pieces, turn, narrowed := TakePage(db, piece, scan.page, scan.reverse, queue, scanned.value.0, scanned.value.1);
    return Ok(batch), pieces, turn, narrowed, now, trail;
  }

  /** Visits the pieces in order, page by page, until `want` pairs are in hand or none are left; `trail` is what
  the stores were asked. */
  method WalkPieces(ghost db: Database, scan: Scan, plan: seq<Piece>, want: nat)
    returns (r: Result<seq<Pair>, Error>, work: Work, ghost trail: seq<Asked>)
    requires scan.page > 0 && forall n :: Honest(db, scan.stores(n).reply)
    ensures r.Ok? ==>
      && r.value <= Todo(db, plan, scan.reverse)
      && (r.value == Todo(db, plan, scan.reverse) || |r.value| >= want)
      && |r.value| <= MAX_SCAN_CALLS * 0xFFFF_FFFF
      && (want > 0 && plan != [] ==> Ordered(plan[0].from, plan[0].to))
    ensures work.calls <= WorkBound(|Todo(db, plan, scan.reverse)|, |plan|, work, scan.reverse)
    ensures work.calls <= MAX_SCAN_CALLS
    ensures work.capped ==> r.Err? && MAX_SCAN_CALLS < WorkBound(|Todo(db, plan, scan.reverse)|, |plan|, work, scan.reverse)
    ensures r.Err? ==> if work.capped then r.error == InternalError(TooManyScanCalls) else !r.error.InternalError?
    ensures if r.Ok? || work.capped then Trodden(scan, trail, InOrder(plan)) else Broken(scan, trail, InOrder(plan), r.error)
  {
    hide Visit, Todo, Lt, Trodden, Broken, Honest, InOrder, Books, WorkBound, Left;
    var pieces := plan;
    var pairs := [];
    var reverse, at := scan.reverse, 0;
    work := Work(0, 0, false);
    trail := [];
    ghost var full, ordered := Todo(db, plan, reverse), InOrder(plan);
    ghost var done := 0;
    NothingTrodden(scan, ordered);
    Opened(|plan|, reverse);

    label walk:
    while pieces != []
      invariant Books(work, |plan|, |pieces|, |pairs|, done, reverse)
      invariant pairs + Todo(db, pieces, reverse) == full
      invariant if work.calls == 0 then pieces == plan && pairs == [] else plan != [] && Ordered(plan[0].from, plan[0].to)
      invariant |trail| == at && Trodden(scan, trail, ordered) && (ordered ==> InOrder(pieces))
      decreases MAX_SCAN_CALLS - work.calls, |pieces|
    {
      var piece := pieces[0];
      TodoCons(db, piece, pieces[1..], reverse);
      assert [piece] + pieces[1..] == pieces;
      if ordered {
        FirstInOrder(pieces);
      }
      pieces := pieces[1..];
      while true
        invariant Books(work, |plan|, |pieces| + 1, |pairs|, done, reverse)
        invariant pairs + (Visit(db, piece.from, piece.to, reverse) + Todo(db, pieces, reverse)) == full
        invariant plan != [] && if work.calls == 0 then piece == plan[0] && pairs == [] else Ordered(plan[0].from, plan[0].to)
        invariant |trail| == at && Trodden(scan, trail, ordered)
        invariant ordered ==> InOrder(pieces) && Ordered(piece.from, piece.to)
        decreases MAX_SCAN_CALLS - work.calls
      {
        Balanced(work, |plan|, |pieces| + 1, |pairs|, done, reverse, |full|);
        if |pairs| >= want {
          return Ok(pairs), work, trail;
        }
        if work.calls + 1 > MAX_SCAN_CALLS {
          CappedBound(|full|, |plan|, work, reverse);
          return Err(InternalError(TooManyScanCalls)), work.(capped := true), trail;
        }
        ghost var open := |pieces| + 1;
        var batch, turn, narrowed;
        batch, pieces, turn, narrowed, at, trail := AskForPage(db, scan, piece, pieces, at, trail, ordered);
        if batch.Err? {
          work := work.(calls := work.calls + 1);
          Overdrawn(work, |plan|, open, |pairs|, done, reverse, |full|);
          return Err(batch.error), work, trail;
        }
        Entered(work, |plan|, open, |pairs|, done, reverse, |batch.value|, narrowed, turn, |pieces|);
        Assoc(pairs, batch.value, Left(db, turn, pieces, reverse));
        pairs := pairs + batch.value;
        work := Work(work.calls + 1, work.narrowings + (if narrowed then 1 else 0), false);
        LeftIs(db, turn, pieces, reverse);
        match turn
        case Replanned =>
          continue walk;
        case Finished =>
          done := done + 1;
          break;
        case Resume(rest) =>
          piece := rest;
      }
    }
    TodoNothing(db, reverse);
    Balanced(work, |plan|, |pieces|, |pairs|, done, reverse, |full|);
    return Ok(pairs), work, trail;
  }

  lemma LeftIs(db: Database, turn: Turn, pieces: seq<Piece>, reverse: bool)
    ensures Left(db, turn, pieces, reverse) ==
      if turn.Resume? then Visit(db, turn.rest.from, turn.rest.to, reverse) + Todo(db, pieces, reverse)
      else Todo(db, pieces, reverse)
  {
  }

  lemma CappedBound(full: nat, planned: nat, work: Work, reverse: bool)
    ensures WorkBound(full, planned, work.(capped := true), reverse) == WorkBound(full, planned, work, reverse)
  {
  }

  /** A page that failed is still within the bound: its piece was not finished. */
  lemma Overdrawn(work: Work, planned: nat, open: nat, pairs: nat, done: nat, reverse: bool, full: nat)
    requires work.calls > 0 && Books(work.(calls := work.calls - 1), planned, open, pairs, done, reverse)
    requires pairs <= full && open > 0 && work.calls <= MAX_SCAN_CALLS
    ensures work.calls <= WorkBound(full, planned, work, reverse) && !work.capped
  {
  }

  lemma FirstInOrder(pieces: seq<Piece>)
    requires InOrder(pieces) && pieces != []
    ensures Ordered(pieces[0].from, pieces[0].to) && InOrder(pieces[1..])
  {
    hide Lt;
  }

  /** Every call is served, or refused in a way that is repaired, whatever range in order is asked for; and of any
  five calls in a row one is served. */
  ghost predicate Survivable(scan: Scan) {
    && (forall n: nat, a: Asked :: Ordered(a.from, a.to) ==>
          scan.Told(n, a).Ok? || (scan.Refuses(n, a) && scan.Mended(n, a).Ok?))
    && forall n: nat :: ServesSoon(scan, n)
  }

  ghost predicate ServesSoon(scan: Scan, n: nat) {
    exists i :: n <= i <= n + SCAN_ROUTE_REFRESHES && ServesAll(scan, i)
  }

  ghost predicate ServesAll(scan: Scan, n: nat) {
    forall a: Asked :: Ordered(a.from, a.to) ==> scan.Told(n, a).Ok?
  }

  /** As many calls before it as a call has tries were refused. */
  lemma {:induction false} RefusedBefore(scan: Scan, trail: seq<Asked>, n: nat, j: nat)
    requires Course(scan, trail) && n < |trail| && j <= trail[n].tries
    ensures j <= n && trail[n - j].tries == trail[n].tries - j && trail[n].tries <= SCAN_ROUTE_REFRESHES
    ensures j > 0 ==> !scan.Told(n - j, trail[n - j]).Ok?
    decreases n, j
  {
    hide Scan.Told;
    if n > 0 {
      assert Follows(scan, trail, n - 1);
      if trail[n].tries > 0 {
        RefusedBefore(scan, trail, n - 1, if j > 0 then j - 1 else 0);
      }
    }
  }

  lemma NotBroken(scan: Scan, trail: seq<Asked>, error: Error)
    requires Survivable(scan)
    ensures !Broken(scan, trail, true, error)
  {
    hide Scan.Told, Scan.Mended;
    if Broken(scan, trail, true, error) {
      var last := |trail| - 1;
      RefusedBefore(scan, trail, last, 0);
      assert trail[last].tries == SCAN_ROUTE_REFRESHES;
      RefusedBefore(scan, trail, last, SCAN_ROUTE_REFRESHES);
      assert ServesSoon(scan, last - SCAN_ROUTE_REFRESHES);
      var i :| last - SCAN_ROUTE_REFRESHES <= i <= last && ServesAll(scan, i);
      RefusedBefore(scan, trail, last, last - i);
    }
  }

  /** What a scan meets: how each step of its plan is routed, and what each of its calls comes upon. */
  datatype World = World(routing: nat -> Step, stores: nat -> Moment)

  /** A range read in one direction, at most `limit` pairs, every pair for a limit of zero. Unless routing
  answered, last, with a region that ends at or before the key asked about, the whole range is read. */
  method ScanWith(ghost db: Database, world: World, start: Key, end: Key, limit: u32, reverse: bool, maxScanLimit: u32)
    returns (r: Result<seq<Pair>, Error>, plan: Option<Plan>, work: Work, ghost log: seq<Routing>, ghost trail: seq<Asked>)
    requires forall n :: Honest(db, world.stores(n).reply)
    ensures plan.None? ==> r.Err? && work.calls == 0 && !work.capped && Unplanned(world.routing, log, start, end, r.error)
    ensures plan.Some? && r.Err? ==>
      if work.capped then r.error == InternalError(TooManyScanCalls) else !r.error.InternalError?
    ensures plan.Some? ==> IsPlan(plan.value, start, end)
    ensures r.Ok? ==> r.value == Answer(db, start, plan.value.covered, limit, reverse)
    ensures plan.Some? ==> Planned(log, plan.value, start, end) && Obtained(world.routing, log)
    ensures r.Ok? && !log[|log| - 1].FailsToAdvance(end) ==> r.value == Answer(db, start, end, limit, reverse)
    ensures r.Ok? && !plan.value.stuck ==> Ordered(start, end)
    ensures plan.Some? ==>
      var bound := WorkBound(|Select(db, start, plan.value.covered)|, |plan.value.pieces|, work, reverse);
      work.calls <= bound && (work.capped ==> r.Err? && MAX_SCAN_CALLS < bound)
    ensures plan.Some? ==>
      var scan := Scan(world.stores, BoundedLimit(limit, maxScanLimit), reverse);
      if r.Ok? || work.capped then Smooth(scan, trail) else Broken(scan, trail, false, r.error)
    ensures Survivable(Scan(world.stores, BoundedLimit(limit, maxScanLimit), reverse)) ==>
      (plan.Some? && !plan.value.stuck && Ordered(start, end) && !work.capped ==> r.Ok?)
  {
    hide IsPlan, Planned, Obtained, Unplanned, Select, Lt, Todo, Walk, Broken, Survivable, Course, Smooth;
    var want := if limit == 0 then USIZE_MAX else limit;
    var scan := Scan(world.stores, BoundedLimit(limit, maxScanLimit), reverse);
    var planned;
    planned, log := RegionsOf(world.routing, start, end);
    trail := [];
    if planned.Err? {
      return Err(planned.error), None, Work(0, 0, false), log, trail;
    }
    PlanCovers(db, planned.value, start, end, reverse);
    r, work, trail := WalkPieces(db, scan, Walk(planned.value.pieces, reverse), want);
    plan := Some(planned.value);
    PlannedAll(log, planned.value, start, end);
    if r.Ok? {
      WalkedInOrder(planned.value, start, end, reverse);
      r := Ok(FirstN(r.value, want));
    } else if !work.capped {
      BrokenAnyhow(scan, trail, InOrder(Walk(planned.value.pieces, reverse)), r.error);
      if !planned.value.stuck && Ordered(start, end) {
        PlanInOrder(planned.value, start, end, reverse);
        if Survivable(scan) {
          NotBroken(scan, trail, r.error);
        }
      }
    }
  }

  lemma BrokenAnyhow(scan: Scan, trail: seq<Asked>, ordered: bool, error: Error)
    requires Broken(scan, trail, ordered, error)
    ensures Broken(scan, trail, false, error)
  {
  }

  /** The pieces of a plan over a range in order are in order. */
  lemma PlanInOrder(p: Plan, start: Key, end: Key, reverse: bool)
    requires IsPlan(p, start, end) && !p.stuck && Ordered(start, end)
    ensures InOrder(Walk(p.pieces, reverse))
  {
    ChainInOrder(p.pieces, start, end);
  }

  lemma {:induction false} ChainInOrder(pieces: seq<Piece>, lo: Key, hi: Key)
    requires Chain(pieces, lo, hi) && Ordered(lo, hi)
    ensures InOrder(pieces)
  {
    hide Lt;
    if |pieces| > 1 {
      ChainInOrder(pieces[1..], pieces[0].to, hi);
    }
  }

  /** Unless the last answer failed to advance, a plan covers the range. */
  lemma PlannedAll(log: seq<Routing>, p: Plan, start: Key, end: Key)
    requires IsPlan(p, start, end) && Planned(log, p, start, end)
    ensures !log[|log| - 1].FailsToAdvance(end) ==> !p.stuck && p.covered == end
    ensures p.pieces != []
  {
  }

  /** A walk whose first piece has its bounds in order has them of the whole range. */
  lemma WalkedInOrder(p: Plan, start: Key, end: Key, reverse: bool)
    requires IsPlan(p, start, end) && p.pieces != []
    ensures var first := Walk(p.pieces, reverse)[0];
      Ordered(first.from, first.to) && !p.stuck ==> Ordered(start, end)
  {
    if !p.stuck && Ordered(Walk(p.pieces, reverse)[0].from, Walk(p.pieces, reverse)[0].to) {
      assert |p.pieces| == 1 ==> Walk(p.pieces, reverse)[0] == p.pieces[0];
      ChainIsOrdered(p.pieces, start, end);
    }
  }

  /** Reading every pair for a limit of zero is reading what the default limit would exactly when there are
  no more than that; the documentation says zero means the default. */
  lemma ZeroIsEverything(db: Database, start: Key, end: Key, reverse: bool)
    ensures Answer(db, start, end, 0, reverse) == Answer(db, start, end, DEFAULT_SCAN_LIMIT, reverse)
      <==> |Select(db, start, end)| <= DEFAULT_SCAN_LIMIT
  {
  }

  /** And there may be more: keys of zeros, each longer than the last. */
  lemma {:induction false} ManyPairs(n: nat) returns (db: Database)
    ensures |db| == n && |Select(db, [], [])| == n
    ensures forall i :: 0 <= i < n ==> db[i] == Pair(seq(i, j => 0), [])
  {
    db := [];
    if n > 0 {
      var front := ManyPairs(n - 1);
      var longer := front + [Pair(seq(n - 1, j => 0), [])];
      forall i, j | 0 <= i < j < n ensures Lt(longer[i].key, longer[j].key) {
        if j == n - 1 {
          MoreZeros(i, j);
        }
      }
      db := longer;
    }
    SelectIsSlice(db, [], []);
    assert Rank(db, []) == 0 && EndRank(db, []) == |db| by {
      RankIs(db, [], 0);
    }
  }

  lemma {:induction false} MoreZeros(i: nat, j: nat)
    requires i < j
    ensures Lt(seq(i, k => 0), seq(j, k => 0))
  {
    if i > 0 {
      var a: Key, b: Key := seq(i, k => 0), seq(j, k => 0);
      MoreZeros(i - 1, j - 1);
      assert a[1..] == seq(i - 1, k => 0) && b[1..] == seq(j - 1, k => 0);
    }
  }
}
