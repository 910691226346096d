/** Which regions a fragment has to be asked of: the shards of a key range, found one after another.

The cluster is a fixed partition while the walk runs; what the routing layer has for each key is given, and is
the partition's region for it or a failure. Who the peers of that region are may be out of date.
*/
module Fragments {
  import opened Keys
  import opened Proto
  import opened Partition

  datatype Shard = Shard(regionId: nat, epoch: Epoch, start: Key, end: Key, columnar: Option<Peer>)

  /** The first columnar learner listed. */
  function ColumnarPeer(peers: seq<Peer>): (r: Option<Peer>)
    ensures r.Some? ==> exists i :: 0 <= i < |peers| && r == Some(peers[i]) && FirstLearner(peers, i)
    ensures r.None? ==> forall i :: 0 <= i < |peers| ==> peers[i].role != ColumnarLearner
  {
    if peers == [] then None
    else if peers[0].role == ColumnarLearner then
      assert FirstLearner(peers, 0);
      Some(peers[0])
    else
      var r := ColumnarPeer(peers[1..]);
      assert r.Some? ==> forall i :: 0 <= i < |peers| - 1 && FirstLearner(peers[1..], i) ==> FirstLearner(peers, i + 1);
      r
  }

  predicate FirstLearner(peers: seq<Peer>, i: nat)
    requires i < |peers|
  {
    peers[i].role == ColumnarLearner && forall j :: 0 <= j < i ==> peers[j].role != ColumnarLearner
  }

  // -- the environment -----------------------------------------------------------------

  /** A routing answer about region `i` of the cluster. */
  predicate About(region: Region, actual: Region) {
    region.(peers := actual.peers) == actual
  }

  ghost predicate Answers(cluster: seq<Region>, key: Key, region: Region) {
    exists i :: 0 <= i < |cluster| && cluster[i].Contains(key) && About(region, cluster[i])
  }

  /** What would be found about a key: the cached route or the driver's, the one repair an enumeration makes of a
  refused route, and the driver's own word when it is asked to confirm. */
  datatype Seen = Seen(routed: Result<Region, ProtoError>, again: Option<Region>,
                       located: Result<Option<Region>, ProtoError>)
  {
    predicate Lost() {
      routed.Err? && again.None?
    }

    /** The route found, repaired if need be. */
    function First(): Region
      requires !Lost()
    {
      if routed.Ok? then routed.value else again.value
    }

    /** The answer gone by: the driver's where no columnar learner is listed and it has one, else the route. */
    function Believed(): Region
      requires !Lost()
    {
      if ColumnarPeer(First().peers).None? && located.Ok? && located.value.Some? then located.value.value else First()
    }
  }

  /** Whatever is found about a key is about the cluster's region for it. */
  ghost predicate Truthful(cluster: seq<Region>, key: Key, seen: Seen) {
    && (seen.routed.Ok? ==> Answers(cluster, key, seen.routed.value))
    && (seen.again.Some? ==> Answers(cluster, key, seen.again.value))
    && (seen.located.Ok? && seen.located.value.Some? ==> Answers(cluster, key, seen.located.value.value))
  }

  // -- the walk ------------------------------------------------------------------------

  ghost predicate Meets(region: Region, start: Key, end: Key) {
    exists key :: region.Contains(key) && Owns(start, end, key)
  }

  /** A shard made of a region as it is now, with the first columnar learner of the answer gone by. */
  predicate Covers(shard: Shard, seen: Seen, region: Region) {
    && shard.regionId == region.id && shard.epoch == region.epoch
    && shard.start == region.startKey && shard.end == region.endKey
    && !seen.Lost() && shard.columnar == ColumnarPeer(seen.Believed().peers)
  }

  /** The key shard `j` is found with: the start of the range, and then the start of each region. */
  function KeyOf(cluster: seq<Region>, lo: nat, start: Key, j: nat): Key
    requires lo + j < |cluster|
  {
    if j == 0 then start else cluster[lo + j].startKey
  }

  ghost predicate CoverRun(shards: seq<Shard>, seen: Key -> Seen, cluster: seq<Region>, lo: nat, start: Key) {
    && lo + |shards| <= |cluster|
    && forall j :: 0 <= j < |shards| ==> Covers(shards[j], seen(KeyOf(cluster, lo, start, j)), cluster[lo + j])
  }

  /** The routing answer about a key is about the one region that holds it. */
  lemma OneAnswer(cluster: seq<Region>, key: Key, m: nat, region: Region)
    requires Tiles(cluster) && AllWellFormed(cluster)
    requires m < |cluster| && cluster[m].Contains(key) && Answers(cluster, key, region)
    ensures About(region, cluster[m])
  {
    var i :| 0 <= i < |cluster| && cluster[i].Contains(key) && About(region, cluster[i]);
    if i < m {
      NotBoth(cluster, i, m, key);
    } else if m < i {
      NotBoth(cluster, m, i, key);
    }
  }

  /** Regions below the one that holds the start do not meet the range. */
  lemma BelowMisses(cluster: seq<Region>, lo: nat, start: Key, end: Key, i: nat)
    requires Tiles(cluster) && AllWellFormed(cluster) && i < lo < |cluster| && cluster[lo].Contains(start)
    ensures !Meets(cluster[i], start, end)
  {
    StartsIncrease(cluster, i, lo);
    assert cluster[i].endKey != [];
    forall key | cluster[i].Contains(key)
      ensures !Owns(start, end, key)
    {
      LtLeTransitive(key, cluster[i].endKey, cluster[lo].startKey);
      LtLeTransitive(key, cluster[lo].startKey, start);
      LeIsNotLt(start, key);
    }
  }

  /** A region above it meets the range exactly when it starts before the range ends. */
  lemma AboveMeets(cluster: seq<Region>, lo: nat, start: Key, end: Key, i: nat)
    requires Tiles(cluster) && AllWellFormed(cluster) && lo < i < |cluster| && cluster[lo].Contains(start)
    ensures Meets(cluster[i], start, end) <==> end == [] || Lt(cluster[i].startKey, end)
  {
    var first := cluster[i].startKey;
    StartsIncrease(cluster, lo, i);
    assert cluster[lo].endKey != [] && cluster[i].WellFormed();
    LtLeTransitive(start, cluster[lo].endKey, first);
    if end == [] || Lt(first, end) {
      assert cluster[i].Contains(first) && Owns(start, end, first);
    } else {
      forall key | cluster[i].Contains(key)
        ensures !Owns(start, end, key)
      {
        LeIsNotLt(end, first);
        LeTransitive(end, first, key);
        LeIsNotLt(end, key);
      }
    }
  }

  /** Every region from `lo` up to `hi` meets the range, and no other does. */
  ghost predicate ExactlyMeets(cluster: seq<Region>, start: Key, end: Key, lo: nat, hi: nat) {
    forall i :: 0 <= i < |cluster| ==> (lo <= i < hi <==> Meets(cluster[i], start, end))
  }

  lemma RunMeets(cluster: seq<Region>, start: Key, end: Key, lo: nat, hi: nat)
    requires Tiles(cluster) && AllWellFormed(cluster) && lo < hi <= |cluster| && cluster[lo].Contains(start)
    requires end == [] || Lt(start, end)
    requires hi - 1 == lo || end == [] || Lt(cluster[hi - 1].startKey, end)
    requires cluster[hi - 1].endKey == [] || (end != [] && Le(end, cluster[hi - 1].endKey))
    ensures ExactlyMeets(cluster, start, end, lo, hi)
  {
    hide Meets, Tiles, Lt;
    forall i | 0 <= i < |cluster|
      ensures lo <= i < hi <==> Meets(cluster[i], start, end)
    {
      if i < lo {
        BelowMisses(cluster, lo, start, end, i);
      } else if i < hi {
        WithinMeets(cluster, start, end, lo, hi, i);
      } else {
        BeyondMisses(cluster, start, end, lo, hi, i);
      }
    }
  }

  lemma WithinMeets(cluster: seq<Region>, start: Key, end: Key, lo: nat, hi: nat, i: nat)
    requires Tiles(cluster) && AllWellFormed(cluster) && lo <= i < hi <= |cluster| && cluster[lo].Contains(start)
    requires end == [] || Lt(start, end)
    requires hi - 1 == lo || end == [] || Lt(cluster[hi - 1].startKey, end)
    ensures Meets(cluster[i], start, end)
  {
    hide Meets, Tiles, AllWellFormed, Lt;
    if i == lo {
      FirstMeets(cluster[lo], start, end);
    } else {
      AboveMeets(cluster, lo, start, end, i);
      if i < hi - 1 && end != [] {
        StartsIncrease(cluster, i, hi - 1);
        LtTransitive(cluster[i].startKey, cluster[hi - 1].startKey, end);
      }
    }
  }

  lemma FirstMeets(region: Region, start: Key, end: Key)
    requires region.Contains(start) && (end == [] || Lt(start, end))
    ensures Meets(region, start, end)
  {
    hide Lt;
    assert Owns(start, end, start);
  }

  lemma BeyondMisses(cluster: seq<Region>, start: Key, end: Key, lo: nat, hi: nat, i: nat)
    requires Tiles(cluster) && AllWellFormed(cluster) && lo < hi <= i < |cluster| && cluster[lo].Contains(start)
    requires cluster[hi - 1].endKey == [] || (end != [] && Le(end, cluster[hi - 1].endKey))
    ensures !Meets(cluster[i], start, end)
  {
    AboveMeets(cluster, lo, start, end, i);
    StartsIncrease(cluster, hi - 1, i);
    assert cluster[hi - 1].endKey != [];
    LeTransitive(end, cluster[hi - 1].endKey, cluster[i].startKey);
    LeIsNotLt(end, cluster[i].startKey);
  }

  /** What the shards of a range are: the regions that meet it, in order, each once. A range with no
      keys gives the one region its start lies in. */
  ghost predicate ShardsOf(shards: seq<Shard>, seen: Key -> Seen, cluster: seq<Region>, start: Key, end: Key) {
    exists lo :: 0 <= lo < |cluster| && cluster[lo].Contains(start) && CoverRun(shards, seen, cluster, lo, start)
      && if end == [] || Lt(start, end) then ExactlyMeets(cluster, start, end, lo, lo + |shards|)
         else |shards| == 1
  }

  lemma Done(shards: seq<Shard>, seen: Key -> Seen, cluster: seq<Region>, start: Key, end: Key, lo: nat)
    requires Tiles(cluster) && AllWellFormed(cluster) && lo < |cluster| && cluster[lo].Contains(start)
    requires CoverRun(shards, seen, cluster, lo, start) && |shards| >= 1
    requires var last := cluster[lo + |shards| - 1];
             && (|shards| == 1 || ((end == [] || Lt(last.startKey, end)) && (end == [] || Lt(start, end))))
             && (last.endKey == [] || (end != [] && Le(end, last.endKey)))
    ensures ShardsOf(shards, seen, cluster, start, end)
  {
    hide Meets, Tiles, Lt, ExactlyMeets, Covers;
    if end == [] || Lt(start, end) {
      RunMeets(cluster, start, end, lo, lo + |shards|);
    }
  }

  /** The route of a key. The driver is asked to confirm it exactly when no columnar learner is listed, and then
  its region is gone by if it has one. */
  method Confirmed(seen: Seen) returns (r: Result<Region, Error>)
    ensures r.Err? <==> seen.routed.Err? && seen.again.None?
    ensures r.Err? ==> r.error == Store(seen.routed.error)
    ensures r.Ok? ==> r.value == seen.Believed()
    ensures r.Ok? && (exists i :: 0 <= i < |seen.First().peers| && seen.First().peers[i].role == ColumnarLearner) ==>
      r.value == seen.First()
    ensures r.Ok? && (forall i :: 0 <= i < |seen.First().peers| ==> seen.First().peers[i].role != ColumnarLearner) ==>
      r.value == if seen.located.Ok? && seen.located.value.Some? then seen.located.value.value else seen.First()
  {
    var region: Region;
    match seen.routed {
      case Ok(found) => region := found;
      case Err(refusal) =>
        if seen.again.None? {
          return Err(Store(refusal));
        }
        region := seen.again.value;
    }
    if ColumnarPeer(region.peers).None? {
      var newer := seen.located;
      if newer.Ok? && newer.value.Some? {
        region := newer.value.value;
      }
    }
    return Ok(region);
  }

  lemma CoverMore(shards: seq<Shard>, seen: Key -> Seen, cluster: seq<Region>, lo: nat, start: Key, shard: Shard)
    requires CoverRun(shards, seen, cluster, lo, start) && lo + |shards| < |cluster|
    requires Covers(shard, seen(KeyOf(cluster, lo, start, |shards|)), cluster[lo + |shards|])
    ensures CoverRun(shards + [shard], seen, cluster, lo, start)
  {
    hide Covers, KeyOf;
  }

  /** Routing has nothing for a key the walk gets to. */
  ghost predicate LostAt(seen: Key -> Seen, start: Key, end: Key, key: Key, error: Error) {
    && (key == start || Owns(start, end, key))
    && seen(key).Lost() && error == Store(seen(key).routed.error)
  }

  method Shards(ghost cluster: seq<Region>, seen: Key -> Seen, start: Key, end: Key)
    returns (r: Result<seq<Shard>, Error>)
    requires Tiles(cluster) && AllWellFormed(cluster)
    requires forall key :: Truthful(cluster, key, seen(key))
    ensures r.Ok? ==> ShardsOf(r.value, seen, cluster, start, end)
    ensures r.Err? ==> exists key :: LostAt(seen, start, end, key, r.error)
  {
    hide Chained, ShardsOf, CoverRun, Lt, Answers, ColumnarPeer, AllWellFormed, Truthful;
    var shards: seq<Shard> := [];
    var key := start;
    ghost var lo := HolderOf(cluster, start);
    ghost var at := lo;
    NothingCovered(seen, cluster, lo, start);
    while true
      invariant lo <= at < |cluster| && |shards| == at - lo
      invariant cluster[lo].Contains(start) && cluster[at].Contains(key) && Le(start, key)
      invariant CoverRun(shards, seen, cluster, lo, start) && key == KeyOf(cluster, lo, start, at - lo)
      invariant if at == lo then key == start
                else key == cluster[at].startKey && (end == [] || Lt(key, end)) && (end == [] || Lt(start, end))
      decreases |cluster| - at
    {
      var confirmed := Confirmed(seen(key));
      if confirmed.Err? {
        assert LostAt(seen, start, end, key, confirmed.error);
        return Err(confirmed.error);
      }
      var region := confirmed.value;
      BelievedIsAbout(cluster, key, at, seen(key));
      var regionEnd := region.endKey;
      var shard := Shard(region.id, region.epoch, region.startKey, regionEnd, ColumnarPeer(region.peers));
      CoverMore(shards, seen, cluster, lo, start, shard);
      shards := shards + [shard];
      if regionEnd == [] {
        Done(shards, seen, cluster, start, end, lo);
        return Ok(shards);
      }
      LeIsNotLt(regionEnd, key);
      if Le(regionEnd, key) {
        // The answer that does not advance, which the program raises as an internal error.
        assert false;
      }
      LeIsNotLt(end, regionEnd);
      if end != [] && Le(end, regionEnd) {
        Done(shards, seen, cluster, start, end, lo);
        return Ok(shards);
      }
      if end != [] {
        LtTransitive(key, regionEnd, end);
      }
      LeLtTransitive(start, key, regionEnd);
      if end != [] {
        LtTransitive(start, regionEnd, end);
      }
      Onward(cluster, at);
      key := regionEnd;
      at := at + 1;
    }
  }

  lemma HolderOf(cluster: seq<Region>, key: Key) returns (i: nat)
    requires Tiles(cluster)
    ensures i < |cluster| && cluster[i].Contains(key)
  {
    hide Chained;
    ChainedAt(cluster, 0);
    i := FindFrom(cluster, 0, key);
  }

  lemma NothingCovered(seen: Key -> Seen, cluster: seq<Region>, lo: nat, start: Key)
    requires lo <= |cluster|
    ensures CoverRun([], seen, cluster, lo, start)
  {
  }

  lemma BelievedIsAbout(cluster: seq<Region>, key: Key, m: nat, seen: Seen)
    requires Tiles(cluster) && AllWellFormed(cluster) && m < |cluster| && cluster[m].Contains(key)
    requires Truthful(cluster, key, seen) && !seen.Lost()
    ensures About(seen.Believed(), cluster[m])
  {
    hide Answers, About, ColumnarPeer;
    OneAnswer(cluster, key, m, seen.Believed());
  }

  /** The next region starts, and holds a key, where this one ends. */
  lemma Onward(cluster: seq<Region>, at: nat)
    requires Tiles(cluster) && AllWellFormed(cluster) && at < |cluster| && cluster[at].endKey != []
    ensures at + 1 < |cluster| && cluster[at + 1].startKey == cluster[at].endKey
    ensures cluster[at + 1].Contains(cluster[at].endKey)
  {
    hide Chained;
    ChainedAt(cluster, at + 1);
    assert cluster[at + 1].WellFormed();
  }
}
