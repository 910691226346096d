/** Where the client thinks each key lives: an ordered map from a region's start key, walked back
from the key asked about.

The map is an index, and the claim about it is that it is *only* an index: after any history of
insertions, invalidations and leader changes, a lookup answers what a reader of that history would
say about the one key, with no map, no order and no neighbouring entry in sight.
*/
module RegionCache {
  import opened Keys
  import opened Proto
  import opened Arithmetic

  /** A region and the peer believed to lead it. */
  datatype Route = Route(region: Region, leader: Option<Peer>)

  type Index = map<Key, Route>

  // -- overlap -------------------------------------------------------------------------

  /** Whether two regions overlap, every comparison against an open end written out. */
  predicate Overlaps(left: Region, right: Region) {
    var leftBeforeRight := left.endKey != [] && Le(left.endKey, right.startKey);
    var rightBeforeLeft := right.endKey != [] && Le(right.endKey, left.startKey);
    !(leftBeforeRight || rightBeforeLeft)
  }

  /** A key both regions contain, if they overlap: the later of the two starts. */
  function SharedKey(left: Region, right: Region): Key {
    if Lt(left.startKey, right.startKey) then right.startKey else left.startKey
  }

  lemma OverlapHasSharedKey(left: Region, right: Region)
    requires left.WellFormed() && right.WellFormed() && Overlaps(left, right)
    ensures left.Contains(SharedKey(left, right)) && right.Contains(SharedKey(left, right))
  {
    LeIsNotLt(right.startKey, left.startKey);
    LeIsNotLt(left.endKey, right.startKey);
    LeIsNotLt(right.endKey, left.startKey);
  }

  /** For regions that hold keys, overlapping is exactly sharing one. */
  lemma OverlapsIsSharing(left: Region, right: Region)
    requires left.WellFormed() && right.WellFormed()
    ensures Overlaps(left, right) <==> exists key :: left.Contains(key) && right.Contains(key)
  {
    if Overlaps(left, right) {
      OverlapHasSharedKey(left, right);
    }
    forall key | left.Contains(key) && right.Contains(key) ensures Overlaps(left, right) {
      SharingOverlaps(left, right, key);
    }
  }

  lemma SharingOverlaps(left: Region, right: Region, key: Key)
    requires left.Contains(key) && right.Contains(key)
    ensures Overlaps(left, right)
  {
    LeIsNotLt(left.endKey, key);
    LeIsNotLt(right.endKey, key);
    if left.endKey != [] && Le(left.endKey, right.startKey) {
      LeTransitive(left.endKey, right.startKey, key);
    }
    if right.endKey != [] && Le(right.endKey, left.startKey) {
      LeTransitive(right.endKey, left.startKey, key);
    }
  }

  // -- the index -----------------------------------------------------------------------

  /** What every history keeps: each entry sits at its own start and overlaps no other. */
  ghost predicate Apart(m: Index) {
    && (forall k :: k in m ==> m[k].region.startKey == k)
    && (forall j, k :: j in m && k in m && j != k ==> !Overlaps(m[j].region, m[k].region))
  }

  /** A region that holds no key starts inside one that does: walking back to its start stops there. */
  predicate Obstructs(front: Region, behind: Region) {
    !front.WellFormed() && behind.Contains(front.startKey)
  }

  /** No entry stands in front of another. */
  ghost predicate Unobstructed(m: Index) {
    forall j, k :: j in m && k in m ==> !Obstructs(m[k].region, m[j].region)
  }

  /** The last start at or before `key`. */
  ghost predicate IsFloor(m: Index, key: Key, k: Key) {
    k in m && Le(k, key) && forall j :: j in m && Le(j, key) ==> Le(j, k)
  }

  lemma FloorIsUnique(m: Index, key: Key, j: Key, k: Key)
    requires IsFloor(m, key, j) && IsFloor(m, key, k)
    ensures j == k
  {
    LeIsNotLt(j, k);
  }

  /** Walks back from `key` to the last start at or before it. */
  method LastAtOrBefore(m: Index, key: Key) returns (floor: Option<Key>)
    ensures floor.None? ==> forall k :: k in m ==> !Le(k, key)
    ensures floor.Some? ==> IsFloor(m, key, floor.value)
  {
    floor := None;
    var rest := m.Keys;
    while rest != {}
      invariant rest <= m.Keys
      invariant floor.None? ==> forall j :: j in m && j !in rest ==> !Le(j, key)
      invariant floor.Some? ==> floor.value in m && Le(floor.value, key)
      invariant floor.Some? ==> forall j :: j in m && j !in rest && Le(j, key) ==> Le(j, floor.value)
      decreases rest
    {
      var k :| k in rest;
      ghost var seen := rest;
      rest := rest - {k};
      if Le(k, key) {
        if floor.None? {
          floor := Some(k);
        } else {
          LeIsNotLt(k, floor.value);
          if Lt(floor.value, k) {
            forall j | j in m && j !in seen && Le(j, key) ensures Le(j, k) {
              LeTransitive(j, floor.value, k);
            }
            floor := Some(k);
          }
        }
      }
    }
  }

  /** The cached route for `key`: the entry walked back to, if it reaches the key. */
  ghost function Lookup(m: Index, key: Key): Option<Route> {
    if k :| IsFloor(m, key, k) then
      if m[k].region.Contains(key) then Some(m[k]) else None
    else None
  }

  lemma LookupAt(m: Index, key: Key, floor: Option<Key>)
    requires floor.None? ==> forall k :: k in m ==> !Le(k, key)
    requires floor.Some? ==> IsFloor(m, key, floor.value)
    ensures Lookup(m, key) ==
      if floor.Some? && m[floor.value].region.Contains(key) then Some(m[floor.value]) else None
  {
    if floor.Some? {
      forall k | IsFloor(m, key, k) ensures k == floor.value {
        FloorIsUnique(m, key, k, floor.value);
      }
    }
  }

  /** Where no entry stands in front of another, the walk finds exactly what searching every entry
  would: the entry that contains the key, whenever there is one, and nothing in a gap. */
  lemma LookupIsLinearSearch(m: Index, key: Key)
    requires Apart(m) && Unobstructed(m)
    ensures forall k :: k in m && m[k].region.Contains(key) ==> Lookup(m, key) == Some(m[k])
    ensures Lookup(m, key).Some? ==>
      exists k :: k in m && m[k].region.Contains(key) && Lookup(m, key) == Some(m[k])
  {
    forall k | k in m && m[k].region.Contains(key) ensures Lookup(m, key) == Some(m[k]) {
      FloorOfHolder(m, key, k);
      LookupAt(m, key, Some(k));
    }
  }

  lemma FloorOfHolder(m: Index, key: Key, k: Key)
    requires Apart(m) && Unobstructed(m) && k in m && m[k].region.Contains(key)
    ensures IsFloor(m, key, k)
  {
    forall j | j in m && Le(j, key) ensures Le(j, k) {
      LeIsNotLt(j, k);
      if Lt(k, j) {
        LeLtTransitiveUpper(j, key, m[k].region.endKey);
        assert !Obstructs(m[j].region, m[k].region);
        SharingOverlaps(m[j].region, m[k].region, j);
      }
    }
  }

  /** An entry that holds no key answers nothing at its own start. */
  lemma NothingAtItsStart(m: Index, k: Key)
    requires k in m && m[k].region.startKey == k && !m[k].region.WellFormed()
    ensures Lookup(m, k).None?
  {
    LeIsNotLt(m[k].region.endKey, k);
    LookupAt(m, k, Some(k));
  }

  /** Answering by range, in an index whose entries do not overlap, is exactly having none of them stand
  in front of another. */
  lemma SearchExactly(m: Index)
    requires Apart(m)
    ensures (forall key, k :: k in m && m[k].region.Contains(key) ==> Lookup(m, key) == Some(m[k])) <==> Unobstructed(m)
  {
    if Unobstructed(m) {
      forall key, k | k in m && m[k].region.Contains(key)
        ensures Lookup(m, key) == Some(m[k])
      {
        LookupIsLinearSearch(m, key);
      }
    } else {
      var j, k :| j in m && k in m && Obstructs(m[k].region, m[j].region);
      NothingAtItsStart(m, k);
      assert m[j].region.Contains(k) && Lookup(m, k) != Some(m[j]);
    }
  }

  /** A key between a start and a key below the end is itself below the end. */
  lemma LeLtTransitiveUpper(a: Key, b: Key, end: Key)
    requires Le(a, b) && (end == [] || Lt(b, end))
    ensures end == [] || Lt(a, end)
  {
    if end != [] {
      LeLtTransitive(a, b, end);
    }
  }

  // -- what each operation makes of the index ------------------------------------------

  function Sweep(m: Index, region: Region): Index {
    map k | k in m && !Overlaps(m[k].region, region) :: m[k]
  }

  function Inserted(m: Index, route: Route): Index {
    Sweep(m, route.region)[route.region.startKey := route]
  }

  function InsertedAll(m: Index, routes: seq<Route>): Index
    decreases |routes|
  {
    if routes == [] then m else InsertedAll(Inserted(m, routes[0]), routes[1..])
  }

  function Without(m: Index, id: nat): Index {
    map k | k in m && m[k].region.id != id :: m[k]
  }

  ghost function WithoutKey(m: Index, key: Key): Index {
    map k | k in m && !(IsFloor(m, key, k) && m[k].region.Contains(key)) :: m[k]
  }

  /** The listed peer a leader hint names, if the region lists it. */
  function FindPeer(peers: seq<Peer>, id: nat): (r: Option<Peer>)
    ensures r.Some? ==> exists i :: 0 <= i < |peers| && r == Some(peers[i]) && FirstWith(peers, id, i)
    ensures r.None? ==> forall p :: p in peers ==> p.peerId != id
  {
    if peers == [] then None
    else if peers[0].peerId == id then
      assert FirstWith(peers, id, 0);
      Some(peers[0])
    else
      var r := FindPeer(peers[1..], id);
      assert r.Some? ==> forall i :: 0 <= i < |peers| - 1 && FirstWith(peers[1..], id, i) ==> FirstWith(peers, id, i + 1);
      r
  }

  /** The peer at `i` is the first listed with this id. */
  predicate FirstWith(peers: seq<Peer>, id: nat, i: nat)
    requires i < |peers|
  {
    peers[i].peerId == id && forall j :: 0 <= j < i ==> peers[j].peerId != id
  }

  /** Whom a leader hint makes leader: the first listed peer of that id, and nobody if there is no hint or
  nobody listed has it. */
  ghost function LeaderNamed(peers: seq<Peer>, hint: Option<nat>): Option<Peer> {
    if hint.Some? && exists i :: 0 <= i < |peers| && FirstWith(peers, hint.value, i) then
      var i :| 0 <= i < |peers| && FirstWith(peers, hint.value, i);
      Some(peers[i])
    else None
  }

  lemma FoundIsNamed(peers: seq<Peer>, id: nat)
    ensures FindPeer(peers, id) == LeaderNamed(peers, Some(id))
  {
    forall i, j | 0 <= i < |peers| && 0 <= j < |peers| && FirstWith(peers, id, i) && FirstWith(peers, id, j)
      ensures i == j
    {
    }
    if FindPeer(peers, id).None? {
      forall i | 0 <= i < |peers| ensures !FirstWith(peers, id, i) {
        assert peers[i] in peers;
      }
    }
  }

  /** The route with its leader as the hint has it, if it is of the region the hint is about. */
  ghost function Led(route: Route, id: nat, hint: Option<nat>): (r: Route)
    ensures r.region == route.region
    ensures route.region.id != id ==> r.leader == route.leader
    ensures route.region.id == id ==> r.leader == LeaderNamed(route.region.peers, hint)
  {
    if route.region.id != id then route else route.(leader := LeaderNamed(route.region.peers, hint))
  }

  ghost function WithLeader(m: Index, id: nat, hint: Option<nat>): Index {
    map k | k in m :: Led(m[k], id, hint)
  }

  // -- the history, read one key at a time ---------------------------------------------

  datatype Op =
    | Insert(route: Route)
    | InsertAll(routes: seq<Route>)
    | Invalidate(id: nat)
    | InvalidateKey(key: Key)
    | SetLeader(id: nat, hint: Option<nat>)
    | Clear

  /** The regions an operation brings in all hold keys. */
  predicate WellFormedOp(op: Op) {
    match op
    case Insert(route) => route.region.WellFormed()
    case InsertAll(routes) => forall r :: r in routes ==> r.region.WellFormed()
    case _ => true
  }

  /** What is known about `key` after an insertion, from what was known before it: a region that
  covers it is believed, and one that merely runs into the region believed before, or starts where it
  does, evicts it. */
  function AfterInsert(known: Option<Route>, route: Route, key: Key): Option<Route> {
    if route.region.Contains(key) then Some(route)
    else if known.Some? && (Overlaps(known.value.region, route.region)
                            || known.value.region.startKey == route.region.startKey) then None
    else known
  }

  function AfterInserts(known: Option<Route>, routes: seq<Route>, key: Key): Option<Route>
    decreases |routes|
  {
    if routes == [] then known else AfterInserts(AfterInsert(known, routes[0], key), routes[1..], key)
  }

  /** What is known about `key` after one operation. */
  ghost function After(known: Option<Route>, op: Op, key: Key): Option<Route> {
    match op
    case Insert(route) => AfterInsert(known, route, key)
    case InsertAll(routes) => AfterInserts(known, routes, key)
    case Invalidate(id) => if known.Some? && known.value.region.id == id then None else known
    case InvalidateKey(other) => if known.Some? && known.value.region.Contains(other) then None else known
    case SetLeader(id, hint) =>
      if known.Some? && known.value.region.id == id then
        Some(Route(known.value.region, LeaderNamed(known.value.region.peers, hint)))
      else known
    case Clear => None
  }

  /** The whole history, for one key. */
  ghost function Replay(ops: seq<Op>, key: Key): Option<Route> {
    if ops == [] then None else After(Replay(ops[..|ops| - 1], key), ops[|ops| - 1], key)
  }

  /** The index one operation makes of another. */
  ghost function Applied(m: Index, op: Op): Index {
    match op
    case Insert(route) => Inserted(m, route)
    case InsertAll(routes) => InsertedAll(m, routes)
    case Invalidate(id) => Without(m, id)
    case InvalidateKey(key) => WithoutKey(m, key)
    case SetLeader(id, hint) => WithLeader(m, id, hint)
    case Clear => map[]
  }

  /** The index a history builds. */
  ghost function Built(ops: seq<Op>): Index {
    if ops == [] then map[] else Applied(Built(ops[..|ops| - 1]), ops[|ops| - 1])
  }

  // -- the proofs ----------------------------------------------------------------------

  ghost predicate Holds(m: Index, route: Route) {
    route.region.startKey in m && m[route.region.startKey] == route
  }

  /** A lookup is what the entry containing the key says, if any does. */
  lemma LookupIs(m: Index, key: Key, known: Option<Route>)
    requires Apart(m) && Unobstructed(m)
    requires known.Some? ==> Holds(m, known.value) && known.value.region.Contains(key)
    requires known.None? ==> forall k :: k in m ==> !m[k].region.Contains(key)
    ensures Lookup(m, key) == known
  {
    LookupIsLinearSearch(m, key);
  }

  /** Whatever is inserted, entries stay at their own starts and do not overlap. */
  lemma InsertedIsApart(m: Index, route: Route)
    requires Apart(m)
    ensures Apart(Inserted(m, route))
  {
    var m' := Inserted(m, route);
    forall j, k | j in m' && k in m' && j != k ensures !Overlaps(m'[j].region, m'[k].region) {
      if j == route.region.startKey || k == route.region.startKey {
        OverlapsIsSymmetric(m'[j].region, m'[k].region);
      }
    }
  }

  lemma OverlapsIsSymmetric(left: Region, right: Region)
    ensures Overlaps(left, right) <==> Overlaps(right, left)
  {
  }

  /** Some entry that the insertion of `region` leaves in place would stand in front of it, or behind it. */
  ghost predicate Hides(m: Index, region: Region) {
    exists k :: k in m && k != region.startKey && !Overlaps(m[k].region, region)
      && (Obstructs(region, m[k].region) || Obstructs(m[k].region, region))
  }

  lemma NotItself(region: Region)
    ensures !Obstructs(region, region)
  {
    LeIsNotLt(region.endKey, region.startKey);
  }

  /** An insertion leaves the view clear exactly when it hides nothing. */
  lemma InsertedIsUnobstructed(m: Index, route: Route)
    requires Apart(m) && Unobstructed(m)
    ensures Unobstructed(Inserted(m, route)) <==> !Hides(m, route.region)
  {
    var m', start := Inserted(m, route), route.region.startKey;
    NotItself(route.region);
    if Hides(m, route.region) {
      var k :| k in m && k != start && !Overlaps(m[k].region, route.region)
        && (Obstructs(route.region, m[k].region) || Obstructs(m[k].region, route.region));
      assert k in m' && m'[k] == m[k] && m'[start] == route;
    } else {
      forall j, k | j in m' && k in m' ensures !Obstructs(m'[k].region, m'[j].region) {
        assert j != start ==> j in m && m'[j] == m[j] && !Overlaps(m[j].region, route.region);
        assert k != start ==> k in m && m'[k] == m[k] && !Overlaps(m[k].region, route.region);
      }
    }
  }

  lemma InsertedLookup(m: Index, route: Route, key: Key)
    requires Apart(m) && Unobstructed(m) && !Hides(m, route.region)
    ensures Lookup(Inserted(m, route), key) == AfterInsert(Lookup(m, key), route, key)
  {
    InsertedIsApart(m, route);
    InsertedIsUnobstructed(m, route);
    LookupIsLinearSearch(m, key);
    LookupIs(Inserted(m, route), key, AfterInsert(Lookup(m, key), route, key));
  }

  /** An insertion, of any region at all, changes every key's answer as the history says if and only if it
  hides nothing; when it does, some entry answers no longer for a key that it holds. */
  lemma InsertionExactly(m: Index, route: Route)
    requires Apart(m) && Unobstructed(m)
    ensures var m' := Inserted(m, route);
      && ((forall key :: Lookup(m', key) == AfterInsert(Lookup(m, key), route, key)) <==> !Hides(m, route.region))
      && ((forall key, k :: k in m' && m'[k].region.Contains(key) ==> Lookup(m', key) == Some(m'[k]))
          <==> !Hides(m, route.region))
  {
    InsertedIsApart(m, route);
    InsertedIsUnobstructed(m, route);
    SearchExactly(Inserted(m, route));
    if Hides(m, route.region) {
      var key := HiddenKey(m, route);
    } else {
      forall key ensures Lookup(Inserted(m, route), key) == AfterInsert(Lookup(m, key), route, key) {
        InsertedLookup(m, route, key);
      }
    }
  }

  lemma HiddenKey(m: Index, route: Route) returns (key: Key)
    requires Apart(m) && Unobstructed(m) && Hides(m, route.region)
    ensures Lookup(Inserted(m, route), key) != AfterInsert(Lookup(m, key), route, key)
  {
    var m', start := Inserted(m, route), route.region.startKey;
    var k :| k in m && k != start && !Overlaps(m[k].region, route.region)
      && (Obstructs(route.region, m[k].region) || Obstructs(m[k].region, route.region));
    assert m'[k] == m[k] && m'[start] == route;
    if Obstructs(route.region, m[k].region) {
      key := start;
      NothingAtItsStart(m', start);
      LookupIsLinearSearch(m, start);
      LeIsNotLt(route.region.endKey, start);
    } else {
      key := k;
      NothingAtItsStart(m', k);
    }
  }

  /** A batch hides something at one of its insertions. */
  ghost predicate HidesAny(m: Index, routes: seq<Route>)
    decreases |routes|
  {
    routes != [] && (Hides(m, routes[0].region) || HidesAny(Inserted(m, routes[0]), routes[1..]))
  }

  lemma {:induction false} InsertedAllLookup(m: Index, routes: seq<Route>, key: Key)
    requires Apart(m)
    ensures Apart(InsertedAll(m, routes))
    ensures Unobstructed(m) && !HidesAny(m, routes) ==>
      && Unobstructed(InsertedAll(m, routes))
      && Lookup(InsertedAll(m, routes), key) == AfterInserts(Lookup(m, key), routes, key)
    decreases |routes|
  {
    if routes != [] {
      InsertedIsApart(m, routes[0]);
      if Unobstructed(m) && !HidesAny(m, routes) {
        InsertedIsUnobstructed(m, routes[0]);
        InsertedLookup(m, routes[0], key);
      }
      InsertedAllLookup(Inserted(m, routes[0]), routes[1..], key);
    }
  }

  /** Dropping entries leaves every other answer alone. */
  lemma KeptLookup(m: Index, m': Index, key: Key)
    requires Apart(m)
    requires forall k :: k in m' ==> k in m && m'[k] == m[k]
    ensures Apart(m')
    ensures Unobstructed(m) ==>
      && Unobstructed(m')
      && Lookup(m', key) == if Lookup(m, key).Some? && Holds(m', Lookup(m, key).value) then Lookup(m, key) else None
  {
    if Unobstructed(m) {
      LookupIsLinearSearch(m, key);
      var before := Lookup(m, key);
      LookupIs(m', key, if before.Some? && Holds(m', before.value) then before else None);
    }
  }

  lemma WithoutKeyLookup(m: Index, gone: Key, key: Key)
    requires Apart(m)
    ensures Apart(WithoutKey(m, gone))
    ensures Unobstructed(m) ==>
      && Unobstructed(WithoutKey(m, gone))
      && Lookup(WithoutKey(m, gone), key) == After(Lookup(m, key), InvalidateKey(gone), key)
  {
    KeptLookup(m, WithoutKey(m, gone), key);
    if Unobstructed(m) {
      LookupIsLinearSearch(m, key);
      LookupIsLinearSearch(m, gone);
      forall k | k in m ensures IsFloor(m, gone, k) && m[k].region.Contains(gone) <==> m[k].region.Contains(gone) {
        if m[k].region.Contains(gone) {
          FloorOfHolder(m, gone, k);
        }
      }
    }
  }

  lemma WithLeaderIsApart(m: Index, id: nat, hint: Option<nat>)
    ensures Apart(m) ==> Apart(WithLeader(m, id, hint))
    ensures Unobstructed(m) ==> Unobstructed(WithLeader(m, id, hint))
  {
    hide LeaderNamed, Overlaps, Obstructs;
  }

  /** Which entry is walked back to does not depend on who leads it. */
  lemma WithLeaderLookup(m: Index, id: nat, hint: Option<nat>, key: Key)
    ensures Lookup(WithLeader(m, id, hint), key) == After(Lookup(m, key), SetLeader(id, hint), key)
  {
    hide LeaderNamed, Lt;
    var m' := WithLeader(m, id, hint);
    if k :| IsFloor(m, key, k) {
      assert IsFloor(m', key, k) && m'[k].region == m[k].region;
      LookupAt(m, key, Some(k));
      LookupAt(m', key, Some(k));
    } else {
      assert forall k :: IsFloor(m', key, k) ==> IsFloor(m, key, k);
    }
  }

  /** An operation that brings in a region where one of the two would hide the other. */
  ghost predicate Disturbs(m: Index, op: Op) {
    match op
    case Insert(route) => Hides(m, route.region)
    case InsertAll(routes) => HidesAny(m, routes)
    case _ => false
  }

  /** One operation keeps entries apart, whatever it brings in; and unless it hides something it keeps the
  view clear and changes each key's answer as the history says. */
  lemma OneOperation(m: Index, op: Op, key: Key)
    requires Apart(m)
    ensures Apart(Applied(m, op))
    ensures Unobstructed(m) && !Disturbs(m, op) ==>
      && Unobstructed(Applied(m, op))
      && Lookup(Applied(m, op), key) == After(Lookup(m, key), op, key)
  {
    match op
    case Insert(route) =>
      InsertedIsApart(m, route);
      if Unobstructed(m) && !Hides(m, route.region) {
        InsertedIsUnobstructed(m, route);
        InsertedLookup(m, route, key);
      }
    case InsertAll(routes) =>
      InsertedAllLookup(m, routes, key);
    case Invalidate(id) =>
      KeptLookup(m, Without(m, id), key);
      if Unobstructed(m) {
        LookupIsLinearSearch(m, key);
      }
    case InvalidateKey(gone) =>
      WithoutKeyLookup(m, gone, key);
    case SetLeader(id, hint) =>
      WithLeaderIsApart(m, id, hint);
      WithLeaderLookup(m, id, hint, key);
    case Clear =>
      KeptLookup(m, map[], key);
  }

  // -- whole histories -----------------------------------------------------------------

  /** No operation of the history brings in a region that hides another or is hidden. */
  ghost predicate Undisturbed(ops: seq<Op>) {
    forall n :: 0 <= n < |ops| ==> !Disturbs(Built(ops[..n]), ops[n])
  }

  /** After any history at all the entries are keyed by their own starts and overlap nowhere; and after
  one in which nothing was hidden every lookup is what the history alone says about that key. */
  lemma {:induction false} LookupIsReplay(ops: seq<Op>, key: Key)
    ensures Apart(Built(ops))
    ensures Undisturbed(ops) ==> Unobstructed(Built(ops)) && Lookup(Built(ops), key) == Replay(ops, key)
  {
    if ops != [] {
      var n := |ops| - 1;
      var before := ops[..n];
      LookupIsReplay(before, key);
      OneOperation(Built(before), ops[n], key);
      if Undisturbed(ops) {
        UndisturbedBefore(ops, n);
      }
    }
  }

  lemma UndisturbedBefore(ops: seq<Op>, n: nat)
    requires n <= |ops|
    requires forall i :: 0 <= i < n ==> !Disturbs(Built(ops[..i]), ops[i])
    ensures Undisturbed(ops[..n])
  {
    forall i | 0 <= i < n ensures !Disturbs(Built(ops[..n][..i]), ops[..n][i]) {
      assert ops[..n][..i] == ops[..i];
    }
  }

  ghost predicate AllWellFormed(m: Index) {
    forall k :: k in m ==> m[k].region.WellFormed()
  }

  lemma {:induction false} InsertedAllWellFormed(m: Index, routes: seq<Route>)
    requires AllWellFormed(m) && forall r :: r in routes ==> r.region.WellFormed()
    ensures AllWellFormed(InsertedAll(m, routes)) && !HidesAny(m, routes)
    decreases |routes|
  {
    if routes != [] {
      assert routes[0] in routes;
      InsertedAllWellFormed(Inserted(m, routes[0]), routes[1..]);
    }
  }

  lemma OneWellFormed(m: Index, op: Op)
    requires AllWellFormed(m) && WellFormedOp(op)
    ensures AllWellFormed(Applied(m, op)) && !Disturbs(m, op)
  {
    if op.InsertAll? {
      InsertedAllWellFormed(m, op.routes);
    }
  }

  /** Histories of regions that hold keys hide nothing. */
  lemma {:induction false} WellFormedIsUndisturbed(ops: seq<Op>)
    requires forall i :: 0 <= i < |ops| ==> WellFormedOp(ops[i])
    ensures AllWellFormed(Built(ops)) && Undisturbed(ops)
  {
    hide Applied, Disturbs, WellFormedOp, AllWellFormed;
    if ops == [] {
      NothingIsWellFormed();
    } else {
      var n := |ops| - 1;
      WellFormedIsUndisturbed(ops[..n]);
      OneWellFormed(Built(ops[..n]), ops[n]);
      forall i | 0 <= i < |ops| ensures !Disturbs(Built(ops[..i]), ops[i]) {
        if i < n {
          assert ops[..n][..i] == ops[..i] && ops[..n][i] == ops[i];
        }
      }
    }
  }

  lemma NothingIsWellFormed()
    ensures AllWellFormed(map[])
  {
  }

  /** A history with each batch written out as its insertions. */
  function Singly(ops: seq<Op>): seq<Op> {
    if ops == [] then []
    else
      var op := ops[|ops| - 1];
      Singly(ops[..|ops| - 1]) + if op.InsertAll? then Inserts(op.routes) else [op]
  }

  function Inserts(routes: seq<Route>): (r: seq<Op>)
    ensures |r| == |routes|
  {
    seq(|routes|, i requires 0 <= i < |routes| => Insert(routes[i]))
  }

  lemma BuiltMore(ops: seq<Op>, op: Op, key: Key)
    ensures Built(ops + [op]) == Applied(Built(ops), op)
    ensures Replay(ops + [op], key) == After(Replay(ops, key), op, key)
  {
    assert (ops + [op])[..|ops|] == ops;
  }

  lemma {:induction false} BuiltInserts(ops: seq<Op>, routes: seq<Route>, key: Key)
    ensures Built(ops + Inserts(routes)) == InsertedAll(Built(ops), routes)
    ensures Replay(ops + Inserts(routes), key) == AfterInserts(Replay(ops, key), routes, key)
    decreases |routes|
  {
    if routes == [] {
      assert ops + Inserts(routes) == ops;
    } else {
      BuiltMore(ops, Insert(routes[0]), key);
      BuiltInserts(ops + [Insert(routes[0])], routes[1..], key);
      assert ops + Inserts(routes) == (ops + [Insert(routes[0])]) + Inserts(routes[1..]);
    }
  }

  /** Writing the batches out changes neither the index nor what is known of any key. */
  lemma {:induction false} SinglyIsTheSame(ops: seq<Op>, key: Key)
    ensures Built(Singly(ops)) == Built(ops) && Replay(Singly(ops), key) == Replay(ops, key)
  {
    if ops != [] {
      var n := |ops| - 1;
      SinglyIsTheSame(ops[..n], key);
      if ops[n].InsertAll? {
        BuiltInserts(Singly(ops[..n]), ops[n].routes, key);
      } else {
        BuiltMore(Singly(ops[..n]), ops[n], key);
      }
    }
  }

  lemma {:induction false} NoBatchLeft(ops: seq<Op>, i: nat)
    requires i < |Singly(ops)|
    ensures !Singly(ops)[i].InsertAll?
  {
    var n := |ops| - 1;
    if i < |Singly(ops[..n])| {
      NoBatchLeft(ops[..n], i);
    }
  }

  /** Throughout a history, insertion by insertion, every lookup is what the history says about its key if
  and only if no insertion hid anything. */
  lemma HistoryExactly(ops: seq<Op>)
    ensures var steps := Singly(ops);
      (forall n, key :: 0 <= n <= |steps| ==> Lookup(Built(steps[..n]), key) == Replay(steps[..n], key))
        <==> Undisturbed(steps)
  {
    hide Lookup, Replay, Built, Disturbs, Singly;
    var steps := Singly(ops);
    if Undisturbed(steps) {
      forall n, key | 0 <= n <= |steps|
        ensures Lookup(Built(steps[..n]), key) == Replay(steps[..n], key)
      {
        UndisturbedBefore(steps, n);
        LookupIsReplay(steps[..n], key);
      }
    } else {
      var last :| 0 <= last < |steps| && Disturbs(Built(steps[..last]), steps[last]);
      var n := FirstDisturbance(steps, last);
      NoBatchLeft(ops, n);
      var key := Diverges(steps, n);
    }
  }

  /** The first insertion that hides something leaves a key whose lookup is not what the history says. */
  lemma Diverges(steps: seq<Op>, n: nat) returns (key: Key)
    requires n < |steps| && !steps[n].InsertAll? && Disturbs(Built(steps[..n]), steps[n])
    requires forall i :: 0 <= i < n ==> !Disturbs(Built(steps[..i]), steps[i])
    ensures Lookup(Built(steps[..n + 1]), key) != Replay(steps[..n + 1], key)
  {
    hide Lookup, Replay, Built, Unobstructed, Apart, Hides;
    var before := steps[..n];
    UndisturbedBefore(steps, n);
    LookupIsReplay(before, []);
    key := HiddenKey(Built(before), steps[n].route);
    LookupIsReplay(before, key);
    BuiltMore(before, steps[n], key);
    assert steps[..n + 1] == before + [steps[n]];
  }

  lemma {:induction false} FirstDisturbance(ops: seq<Op>, last: nat) returns (n: nat)
    requires last < |ops| && Disturbs(Built(ops[..last]), ops[last])
    ensures n < |ops| && Disturbs(Built(ops[..n]), ops[n])
    ensures forall i :: 0 <= i < n ==> !Disturbs(Built(ops[..i]), ops[i])
    decreases last
  {
    if i :| 0 <= i < last && Disturbs(Built(ops[..i]), ops[i]) {
      n := FirstDisturbance(ops, i);
    } else {
      n := last;
    }
  }

  /** For one: a region whose bounds are crossed holds no key, yet once cached it hides every key above its
  start that an earlier region does hold. */
  lemma CrossedRegionHides(peers: seq<Peer>, epoch: Epoch)
    ensures var held := Route(Region(1, [5], [], peers, epoch), None);
      var crossed := Route(Region(2, [7], [3], peers, epoch), None);
      var m := Inserted(map[], held);
      && Hides(m, crossed.region)
      && held.region.Contains([8]) && Lookup(m, [8]) == Some(held) && Lookup(Inserted(m, crossed), [8]).None?
  {
    var held := Route(Region(1, [5], [], peers, epoch), None);
    var crossed := Route(Region(2, [7], [3], peers, epoch), None);
    var three: Key, five: Key, seven: Key, eight: Key := [3], [5], [7], [8];
    assert Lt(three, five) && Lt(five, seven) && Lt(seven, eight) && Lt(five, eight) && Lt(three, seven);
    LeIsNotLt(three, eight);
    LeIsNotLt(seven, three);
    LeIsNotLt(seven, five);
    var m := Inserted(map[], held);
    assert m == map[five := held] && five in m;
    assert !Overlaps(held.region, crossed.region);
    assert Obstructs(crossed.region, m[five].region);
    var m' := Inserted(m, crossed);
    assert m' == map[five := held, seven := crossed] && five in m' && seven in m';
    LookupAt(m, eight, Some(five));
    LookupAt(m', eight, Some(seven));
  }

  // -- whom to ask ---------------------------------------------------------------------

  /** The peers not on a store this call has failed to reach, in their listed order. */
  function Live(peers: seq<Peer>, corpses: seq<nat>): (r: seq<Peer>)
    ensures forall p :: p in r <==> p in peers && p.storeId !in corpses
    ensures |r| <= |peers|
  {
    if peers == [] then []
    else if peers[0].storeId in corpses then Live(peers[1..], corpses)
    else [peers[0]] + Live(peers[1..], corpses)
  }

  /** In their listed order. */
  lemma {:induction false} LiveInOrder(a: seq<Peer>, b: seq<Peer>, corpses: seq<nat>)
    ensures Live(a + b, corpses) == Live(a, corpses) + Live(b, corpses)
  {
    if a == [] {
      assert a + b == b;
    } else {
      assert (a + b)[1..] == a[1..] + b;
      LiveInOrder(a[1..], b, corpses);
    }
  }

  /** The peers worth asking when nobody is known to lead; all of them dead is not a reason to stop. */
  function Rota(peers: seq<Peer>, corpses: seq<nat>): seq<Peer> {
    if Live(peers, corpses) == [] then peers else Live(peers, corpses)
  }

  /** The peer attempt number `attempt` goes to. */
  function TargetAtSkipping(route: Route, attempt: nat, corpses: seq<nat>): Option<Peer> {
    if route.leader.Some? then route.leader
    else if route.region.peers == [] then None
    else
      var live := Live(route.region.peers, corpses);
      if live == [] then Some(route.region.peers[attempt % |route.region.peers|])
      else Some(live[attempt % |live|])
  }

  /** A known leader is the one asked, whatever the attempt and whoever has failed. */
  lemma LeaderIsAsked(route: Route, attempt: nat, corpses: seq<nat>)
    ensures route.leader.Some? ==> TargetAtSkipping(route, attempt, corpses) == route.leader
    ensures TargetAtSkipping(route, attempt, corpses).None? <==> route.leader.None? && route.region.peers == []
  {
  }

  /** With no leader known, any run of as many attempts as there are peers worth asking asks each of
  them once: the targets are the rota itself, started somewhere in the middle. */
  lemma RotaAsksEachOnce(route: Route, corpses: seq<nat>, first: nat, targets: seq<Option<Peer>>)
    requires route.leader.None? && route.region.peers != []
    requires |targets| == |Rota(route.region.peers, corpses)|
    requires forall i :: 0 <= i < |targets| ==> targets[i] == TargetAtSkipping(route, first + i, corpses)
    ensures var rota := Rota(route.region.peers, corpses);
      var turn := first % |rota|;
      && (forall i :: 0 <= i < |rota| ==> targets[i] == Some((rota[turn..] + rota[..turn])[i]))
      && multiset(rota[turn..] + rota[..turn]) == multiset(rota)
    ensures forall p :: p in route.region.peers && p.storeId !in corpses ==> Some(p) in targets
  {
    var rota := Rota(route.region.peers, corpses);
    var n := |rota|;
    var turn := first % n;
    var turned := rota[turn..] + rota[..turn];
    forall i | 0 <= i < n ensures targets[i] == Some(turned[i]) {
      WrapsOnce(first, i, n);
    }
    hide TargetAtSkipping;
    assert multiset(turned) == multiset(rota) by {
      assert rota == rota[..turn] + rota[turn..];
    }
    forall p | p in route.region.peers && p.storeId !in corpses ensures Some(p) in targets {
      assert p in Live(route.region.peers, corpses) && p in rota;
      Somewhere(turned, rota, targets, p);
    }
  }

  lemma Somewhere(turned: seq<Peer>, rota: seq<Peer>, targets: seq<Option<Peer>>, p: Peer)
    requires multiset(turned) == multiset(rota) && p in rota && |targets| == |turned|
    requires forall i :: 0 <= i < |turned| ==> targets[i] == Some(turned[i])
    ensures Some(p) in targets
  {
    assert p in multiset(turned);
    var i :| 0 <= i < |turned| && turned[i] == p;
    assert targets[i] == Some(p);
  }

  lemma WrapsOnce(first: nat, i: nat, n: nat)
    requires i < n
    ensures (first + i) % n == if first % n + i < n then first % n + i else first % n + i - n
  {
    var q, turn := first / n, first % n;
    assert first == q * n + turn;
    if turn + i < n {
      ModIs(first + i, q, turn + i, n);
    } else {
      assert (q + 1) * n == q * n + n;
      ModIs(first + i, q + 1, turn + i - n, n);
    }
  }

  // -- the cache itself ----------------------------------------------------------------

  class Cache {
    var byStart: Index

    /** What every history keeps. */
    ghost predicate Valid()
      reads this
    {
      Apart(byStart)
    }

    /** And no entry stands in front of another, so that every entry answers for the keys it holds. */
    ghost predicate Plain()
      reads this
    {
      Valid() && Unobstructed(byStart)
    }

    /** What the cache answers for a key. */
    ghost function Answer(key: Key): Option<Route>
      reads this
    {
      Lookup(byStart, key)
    }

    constructor ()
      ensures Plain() && forall key :: Answer(key).None?
    {
      byStart := map[];
    }

    method LookupRoute(key: Key) returns (r: Option<Route>)
      ensures r == Answer(key)
      ensures r.Some? ==> r.value.region.Contains(key)
    {
      var floor := LastAtOrBefore(byStart, key);
      LookupAt(byStart, key, floor);
      if floor.Some? && byStart[floor.value].region.Contains(key) {
        return Some(byStart[floor.value]);
      }
      return None;
    }

    method InsertRoute(route: Route)
      modifies this
      ensures byStart == Applied(old(byStart), Insert(route))
      ensures old(Valid()) ==> Valid()
      ensures old(Plain()) ==> (Plain() <==> !Hides(old(byStart), route.region))
      ensures old(Plain()) && Plain() ==> forall key :: Answer(key) == After(old(Answer(key)), Insert(route), key)
    {
      byStart := map k | k in byStart && !Overlaps(byStart[k].region, route.region) :: byStart[k];
      byStart := byStart[route.region.startKey := route];
      if old(Valid()) {
        InsertedIsApart(old(byStart), route);
        if old(Plain()) {
          InsertionExactly(old(byStart), route);
          InsertedIsUnobstructed(old(byStart), route);
        }
      }
    }

    method InsertRoutes(routes: seq<Route>)
      modifies this
      ensures byStart == Applied(old(byStart), InsertAll(routes))
      ensures old(Valid()) ==> Valid()
      ensures old(Plain()) && !HidesAny(old(byStart), routes) ==>
        Plain() && forall key :: Answer(key) == After(old(Answer(key)), InsertAll(routes), key)
    {
      for i := 0 to |routes|
        invariant InsertedAll(byStart, routes[i..]) == InsertedAll(old(byStart), routes)
      {
        assert routes[i..][1..] == routes[i + 1..];
        byStart := map k | k in byStart && !Overlaps(byStart[k].region, routes[i].region) :: byStart[k];
        byStart := byStart[routes[i].region.startKey := routes[i]];
      }
      OnEveryKey(old(byStart), InsertAll(routes));
    }

    method InvalidateRegion(id: nat)
      modifies this
      ensures byStart == Applied(old(byStart), Invalidate(id))
      ensures old(Valid()) ==> Valid()
      ensures old(Plain()) ==>
        Plain() && forall key :: Answer(key) == After(old(Answer(key)), Invalidate(id), key)
    {
      byStart := map k | k in byStart && byStart[k].region.id != id :: byStart[k];
      OnEveryKey(old(byStart), Invalidate(id));
    }

    method InvalidateKeyAt(gone: Key)
      modifies this
      ensures byStart == Applied(old(byStart), InvalidateKey(gone))
      ensures old(Valid()) ==> Valid()
      ensures old(Plain()) ==>
        Plain() && forall key :: Answer(key) == After(old(Answer(key)), InvalidateKey(gone), key)
    {
      var floor := LastAtOrBefore(byStart, gone);
      if floor.Some? {
        forall k | IsFloor(byStart, gone, k) ensures k == floor.value {
          FloorIsUnique(byStart, gone, k, floor.value);
        }
        if byStart[floor.value].region.Contains(gone) {
          byStart := byStart - {floor.value};
        }
      }
      assert byStart == WithoutKey(old(byStart), gone);
      OnEveryKey(old(byStart), InvalidateKey(gone));
    }

    /** Points a region at the peer a hint names; a hint naming no listed peer forgets the leader. */
    method RecordLeader(id: nat, hint: Option<nat>)
      modifies this
      ensures byStart == Applied(old(byStart), SetLeader(id, hint))
      ensures byStart.Keys == old(byStart).Keys
      ensures forall k :: k in byStart ==>
        byStart[k] == Route(old(byStart)[k].region,
                            if old(byStart)[k].region.id != id then old(byStart)[k].leader
                            else LeaderNamed(old(byStart)[k].region.peers, hint))
      ensures old(Valid()) ==> Valid()
      ensures old(Plain()) ==>
        Plain() && forall key :: Answer(key) == After(old(Answer(key)), SetLeader(id, hint), key)
    {
      var rest := byStart.Keys;
      while rest != {}
        invariant rest <= byStart.Keys == old(byStart).Keys
        invariant forall k :: k in byStart ==>
          byStart[k] == if k in rest then old(byStart)[k] else Led(old(byStart)[k], id, hint)
        decreases rest
      {
        var k :| k in rest;
        rest := rest - {k};
        var route := byStart[k];
        if route.region.id == id {
          var leader := None;
          if hint.Some? {
            FoundIsNamed(route.region.peers, hint.value);
            leader := FindPeer(route.region.peers, hint.value);
          }
          byStart := byStart[k := route.(leader := leader)];
        }
      }
      assert byStart == WithLeader(old(byStart), id, hint);
      OnEveryKey(old(byStart), SetLeader(id, hint));
    }

    method ClearAll()
      modifies this
      ensures Plain() && forall key :: Answer(key).None?
    {
      byStart := map[];
    }
  }

  lemma OnEveryKey(m: Index, op: Op)
    ensures Apart(m) ==> Apart(Applied(m, op))
    ensures Apart(m) && Unobstructed(m) && !Disturbs(m, op) ==>
      && Unobstructed(Applied(m, op))
      && forall key :: Lookup(Applied(m, op), key) == After(Lookup(m, key), op, key)
  {
    if Apart(m) {
      OneOperation(m, op, []);
      forall key
        ensures Unobstructed(m) && !Disturbs(m, op) ==>
          Lookup(Applied(m, op), key) == After(Lookup(m, key), op, key)
      {
        OneOperation(m, op, key);
      }
    }
  }
}
