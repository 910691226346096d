/** Lists of regions that follow one another, and when such a list is a partition of the key space. */
module Partition {
  import opened Keys
  import opened Proto

  /** Where a list of regions has got to; at first, the beginning of the key space. */
  ghost function EndOf(regions: seq<Region>): Key {
    if regions == [] then [] else regions[|regions| - 1].endKey
  }

  /** Each region starts exactly where the one before it ended, and the first at the beginning. */
  ghost predicate Chained(regions: seq<Region>) {
    regions == []
    || var n := |regions| - 1;
       Chained(regions[..n]) && regions[n].startKey == EndOf(regions[..n])
  }

  lemma {:induction false} ChainedAt(regions: seq<Region>, i: nat)
    requires Chained(regions) && i < |regions|
    ensures regions[i].startKey == if i == 0 then [] else regions[i - 1].endKey
  {
    var n := |regions| - 1;
    if i < n {
      ChainedAt(regions[..n], i);
    }
  }

  ghost predicate AllWellFormed(regions: seq<Region>) {
    forall i :: 0 <= i < |regions| ==> regions[i].WellFormed()
  }

  /** No region ends before it starts; one that ends where it starts holds nothing and harms nothing. */
  ghost predicate AllOrdered(regions: seq<Region>) {
    forall i :: 0 <= i < |regions| ==> Ordered(regions[i].startKey, regions[i].endKey)
  }

  /** No region but the last is open above. */
  ghost predicate OnlyLastOpen(regions: seq<Region>) {
    && regions != [] && regions[|regions| - 1].endKey == []
    && forall i :: 0 <= i < |regions| - 1 ==> regions[i].endKey != []
  }

  ghost predicate Tiles(regions: seq<Region>) {
    Chained(regions) && AllOrdered(regions) && OnlyLastOpen(regions)
  }

  /** Every key lies in exactly one of the regions. */
  ghost predicate Partitions(regions: seq<Region>) {
    forall key: Key :: OnlyIn(regions, key)
  }

  ghost predicate OnlyIn(regions: seq<Region>, key: Key) {
    exists i :: 0 <= i < |regions| && regions[i].Contains(key)
      && forall j :: 0 <= j < |regions| && regions[j].Contains(key) ==> j == i
  }

  lemma {:induction false} StartsAscend(regions: seq<Region>, i: nat, j: nat)
    requires Tiles(regions) && i < j < |regions|
    ensures Le(regions[i].startKey, regions[j].startKey) && Le(regions[i].endKey, regions[j].startKey)
    decreases j - i
  {
    hide Chained;
    assert Ordered(regions[i].startKey, regions[i].endKey) && regions[i].endKey != [];
    ChainedAt(regions, i + 1);
    if i + 1 < j {
      StartsAscend(regions, i + 1, j);
      LeTransitive(regions[i].startKey, regions[i + 1].startKey, regions[j].startKey);
    }
  }

  lemma StartsIncrease(regions: seq<Region>, i: nat, j: nat)
    requires Tiles(regions) && AllWellFormed(regions) && i < j < |regions|
    ensures Lt(regions[i].startKey, regions[j].startKey) && Le(regions[i].endKey, regions[j].startKey)
  {
    hide Chained;
    StartsAscend(regions, i, j);
    assert regions[i].WellFormed() && regions[i].endKey != [];
    LtLeTransitive(regions[i].startKey, regions[i].endKey, regions[j].startKey);
  }

  lemma NotBoth(regions: seq<Region>, i: nat, j: nat, key: Key)
    requires Tiles(regions) && i < j < |regions|
    ensures !(regions[i].Contains(key) && regions[j].Contains(key))
  {
    hide Chained;
    StartsAscend(regions, i, j);
    assert regions[i].endKey != [];
    if regions[i].Contains(key) && regions[j].Contains(key) {
      LeTransitive(regions[i].endKey, regions[j].startKey, key);
      LeIsNotLt(regions[i].endKey, key);
    }
  }

  /** In a chain that reaches the end of the key space, a key at or past the start of region `from` is
      held by that region or one after it, whatever their bounds. */
  lemma {:induction false} FindFrom(regions: seq<Region>, from: nat, key: Key) returns (i: nat)
    requires Chained(regions) && from < |regions| && EndOf(regions) == []
    requires Le(regions[from].startKey, key)
    ensures from <= i < |regions| && regions[i].Contains(key)
    decreases |regions| - from
  {
    hide Chained;
    var end := regions[from].endKey;
    LeIsNotLt(end, key);
    if end == [] || Lt(key, end) {
      i := from;
    } else {
      ChainedAt(regions, from + 1);
      i := FindFrom(regions, from + 1, key);
    }
  }

  /** And a key below the start of region `to` is held by one before it. */
  lemma {:induction false} FindBelow(regions: seq<Region>, from: nat, to: nat, key: Key) returns (i: nat)
    requires Chained(regions) && from <= to < |regions|
    requires Le(regions[from].startKey, key) && Lt(key, regions[to].startKey)
    ensures from <= i < to && regions[i].Contains(key)
    decreases |regions| - from
  {
    hide Chained;
    LeIsNotLt(regions[to].startKey, key);
    assert from < to;
    var end := regions[from].endKey;
    LeIsNotLt(end, key);
    if end == [] || Lt(key, end) {
      i := from;
    } else {
      ChainedAt(regions, from + 1);
      i := FindBelow(regions, from + 1, to, key);
    }
  }

  /** Regions that tile the key space hold each key once. */
  lemma TilesPartition(regions: seq<Region>)
    requires Tiles(regions)
    ensures Partitions(regions)
  {
    hide Chained;
    forall key: Key
      ensures OnlyIn(regions, key)
    {
      ChainedAt(regions, 0);
      var i := FindFrom(regions, 0, key);
      forall j | 0 <= j < |regions| && regions[j].Contains(key)
        ensures j == i
      {
        if i < j {
          NotBoth(regions, i, j, key);
        } else if j < i {
          NotBoth(regions, j, i, key);
        }
      }
    }
  }

  /** Two regions open above always share keys. */
  lemma OpenRegionsMeet(a: Region, b: Region) returns (key: Key)
    requires a.endKey == [] && b.endKey == []
    ensures a.Contains(key) && b.Contains(key)
  {
    LeIsNotLt(b.startKey, a.startKey);
    key := if Lt(a.startKey, b.startKey) then b.startKey else a.startKey;
  }

  /** A region that ends before it starts makes the chain go over the same keys twice. */
  lemma CrossedRegionOverlaps(regions: seq<Region>, i: nat) returns (key: Key)
    requires Chained(regions) && EndOf(regions) == [] && i < |regions|
    requires !Ordered(regions[i].startKey, regions[i].endKey)
    ensures !OnlyIn(regions, key)
  {
    hide Chained;
    key := regions[i].endKey;
    LeIsNotLt(regions[i].startKey, key);
    ChainedAt(regions, 0);
    ChainedAt(regions, i + 1);
    var above := FindFrom(regions, i + 1, key);
    var below := FindBelow(regions, 0, i, key);
    assert regions[above].Contains(key) && regions[below].Contains(key) && below < above;
  }

  /** A chain that reaches the end of the key space is a partition exactly when it reaches it once and
      none of its regions ends before it starts. */
  lemma ChainPartitionsExactly(regions: seq<Region>)
    requires Chained(regions) && regions != [] && EndOf(regions) == []
    ensures Partitions(regions) <==> OnlyLastOpen(regions) && AllOrdered(regions)
  {
    hide Chained, OnlyIn;
    if !OnlyLastOpen(regions) {
      var i :| 0 <= i < |regions| - 1 && regions[i].endKey == [];
      var key := OpenRegionsMeet(regions[i], regions[|regions| - 1]);
      HeldTwice(regions, i, |regions| - 1, key);
    } else if !AllOrdered(regions) {
      var i :| 0 <= i < |regions| && !Ordered(regions[i].startKey, regions[i].endKey);
      var key := CrossedRegionOverlaps(regions, i);
    } else {
      TilesPartition(regions);
    }
  }

  lemma HeldTwice(regions: seq<Region>, i: nat, j: nat, key: Key)
    requires i < j < |regions| && regions[i].Contains(key) && regions[j].Contains(key)
    ensures !OnlyIn(regions, key)
  {
  }

  predicate Ascends(regions: seq<Region>, i: nat)
    requires i + 1 < |regions|
  {
    Lt(regions[i].startKey, regions[i + 1].startKey)
  }

  /** Regions in strictly increasing order of their starts meet both conditions. */
  lemma IncreasingStartsSuffice(regions: seq<Region>)
    requires Chained(regions) && regions != [] && EndOf(regions) == []
    requires forall i :: 0 <= i < |regions| - 1 ==> Ascends(regions, i)
    ensures OnlyLastOpen(regions) && AllOrdered(regions)
  {
    hide Chained, Lt, Ascends;
    forall i | 0 <= i < |regions|
      ensures i < |regions| - 1 ==> regions[i].endKey != []
      ensures Ordered(regions[i].startKey, regions[i].endKey)
    {
      if i < |regions| - 1 {
        EndsAbove(regions, i);
      }
    }
  }

  lemma EndsAbove(regions: seq<Region>, i: nat)
    requires Chained(regions) && i + 1 < |regions| && Ascends(regions, i)
    ensures regions[i].endKey != [] && Ordered(regions[i].startKey, regions[i].endKey)
  {
    hide Chained;
    ChainedAt(regions, i + 1);
  }
}
