/** The operator's walk of the whole routing table, a page at a time, checking it as it goes. */
module Walk {
  import opened Keys
  import opened Proto
  import opened Partition

  /** What the placement driver may answer: a page, a refusal, or an answer to another question. */
  datatype Page = Regions(regions: seq<Region>) | Failed | Other

  datatype WalkError =
    | AskFailed
    | WrongAnswer
    | NotAPartition(region: nat)
    | Gap(after: nat)

  /** The regions of the pages, in order. */
  ghost function Listed(pages: seq<Page>): seq<Region> {
    if pages == [] then []
    else
      var last := pages[|pages| - 1];
      Listed(pages[..|pages| - 1]) + if last.Regions? then last.regions else []
  }

  /** The first region that does not start where the list had got to is the one of this id. */
  ghost predicate BreaksAt(regions: seq<Region>, id: nat) {
    exists i :: 0 <= i < |regions| && Chained(regions[..i]) && regions[i].startKey != EndOf(regions[..i])
      && regions[i].id == id
  }

  /** What an outcome says about the pages read. */
  ghost predicate Reports(pages: seq<Page>, r: Result<seq<Region>, WalkError>) {
    && pages != []
    && var last := pages[|pages| - 1];
       match r
       case Ok(found) => found == Listed(pages) && Chained(found) && EndOf(found) == [] && last.Regions?
       case Err(NotAPartition(id)) => BreaksAt(Listed(pages), id)
       case Err(Gap(id)) =>
         var found := Listed(pages);
         && last == Regions([]) && Chained(found)
         && found != [] && EndOf(found) != [] && id == found[|found| - 1].id
       case Err(AskFailed) => last == Failed
       case Err(WrongAnswer) => last == Other
  }

  lemma ListedMore(pages: seq<Page>, k: nat)
    requires k < |pages|
    ensures Listed(pages[..k + 1]) == Listed(pages[..k]) + if pages[k].Regions? then pages[k].regions else []
  {
    assert pages[..k + 1][..k] == pages[..k];
  }

  lemma ChainedMore(found: seq<Region>, region: Region)
    ensures Chained(found + [region]) <==> Chained(found) && region.startKey == EndOf(found)
    ensures EndOf(found + [region]) == region.endKey
  {
    assert (found + [region])[..|found|] == found;
  }

  /** Takes in the regions of one page, as far as they follow on. */
  method TakePage(found: seq<Region>, regions: seq<Region>) returns (more: seq<Region>, broken: Option<nat>)
    requires Chained(found)
    ensures broken == None ==> more == found + regions && Chained(more)
    ensures broken.Some? ==> BreaksAt(found + regions, broken.value)
  {
    more := found;
    var next := if found == [] then [] else found[|found| - 1].endKey;
    for i := 0 to |regions|
      invariant more == found + regions[..i] && Chained(more) && next == EndOf(more)
    {
      ChainedMore(more, regions[i]);
      assert found + regions[..i + 1] == more + [regions[i]];
      if regions[i].startKey != next {
        BreaksHere(found, regions, i);
        return more, Some(regions[i].id);
      }
      next := regions[i].endKey;
      more := more + [regions[i]];
    }
    assert regions[..|regions|] == regions;
    broken := None;
  }

  lemma BreaksHere(found: seq<Region>, regions: seq<Region>, i: nat)
    requires i < |regions| && Chained(found + regions[..i]) && regions[i].startKey != EndOf(found + regions[..i])
    ensures BreaksAt(found + regions, regions[i].id)
  {
    var all, at := found + regions, |found| + i;
    assert all[..at] == found + regions[..i] && all[at] == regions[i];
  }

  /** A break is a break: what comes after does not mend it. */
  lemma {:induction false} BrokenStaysBroken(regions: seq<Region>, i: nat)
    requires i < |regions| && regions[i].startKey != EndOf(regions[..i])
    ensures !Chained(regions)
  {
    var n := |regions| - 1;
    if i < n {
      assert regions[..n][..i] == regions[..i];
      BrokenStaysBroken(regions[..n], i);
    }
  }

  /** The region reported is the only one the report fits, and the list is no chain. */
  lemma OneBreak(regions: seq<Region>, i: nat, j: nat)
    requires i < |regions| && Chained(regions[..i]) && regions[i].startKey != EndOf(regions[..i])
    requires j < |regions| && Chained(regions[..j]) && regions[j].startKey != EndOf(regions[..j])
    ensures i == j && !Chained(regions)
  {
    BrokenStaysBroken(regions, i);
    if i < j {
      assert regions[..j][..i] == regions[..i];
      BrokenStaysBroken(regions[..j], i);
    } else if j < i {
      assert regions[..i][..j] == regions[..j];
      BrokenStaysBroken(regions[..i], j);
    }
  }

  /** Reads pages until the key space is covered. `read` counts them; no outcome means that the
      driver gave no more answers than these. */
  method WalkPages(pages: seq<Page>) returns (r: Option<Result<seq<Region>, WalkError>>, read: nat)
    ensures r.Some? ==> read <= |pages| && Reports(pages[..read], r.value)
    ensures r.None? ==> read == |pages| && Chained(Listed(pages)) && (pages != [] ==> EndOf(Listed(pages)) != [])
  {
    hide Chained, Listed;
    var found: seq<Region> := [];
    var k := 0;
    NothingListed(pages);
    while k < |pages|
      invariant 0 <= k <= |pages|
      invariant found == Listed(pages[..k]) && Chained(found)
      invariant k > 0 ==> found != [] && EndOf(found) != []
      invariant k == 0 ==> found == []
    {
      var page := pages[k];
      ListedMore(pages, k);
      assert pages[..k + 1][k] == page;
      k := k + 1;
      read := k;
      match page {
        case Failed => return Some(Err(AskFailed)), read;
        case Other => return Some(Err(WrongAnswer)), read;
        case Regions(regions) =>
          if regions == [] {
            assert found + regions == found;
            if found == [] {
              return Some(Ok(found)), read;
            }
            return Some(Err(Gap(found[|found| - 1].id))), read;
          }
          var broken;
          found, broken := TakePage(found, regions);
          if broken.Some? {
            return Some(Err(NotAPartition(broken.value))), read;
          }
          if found[|found| - 1].endKey == [] {
            return Some(Ok(found)), read;
          }
      }
    }
    assert pages[..k] == pages;
    return None, k;
  }

  lemma NothingListed(pages: seq<Page>)
    ensures Listed(pages[..0]) == [] && Chained([])
  {
  }

  /** A table that was accepted and is not empty holds every key exactly once if and only if no region
      before the last claims the rest of the key space and none ends before it starts. */
  lemma AcceptedIsPartition(pages: seq<Page>, found: seq<Region>)
    requires Reports(pages, Ok(found)) && found != []
    ensures Partitions(found) <==> OnlyLastOpen(found) && AllOrdered(found)
  {
    ChainPartitionsExactly(found);
  }

  lemma OnePage(regions: seq<Region>)
    requires Chained(regions) && EndOf(regions) == []
    ensures Reports([Regions(regions)], Ok(regions))
  {
    hide Chained;
    var pages := [Regions(regions)];
    ListedMore(pages, 0);
    NothingListed(pages);
    assert pages[..1] == pages && [] + regions == regions;
  }

  /** Otherwise an overlap goes unreported. Two regions over the whole key space are accepted. */
  lemma OverlapIsAccepted(a: Region, b: Region)
    requires a.startKey == [] && a.endKey == [] && b.startKey == [] && b.endKey == []
    ensures Reports([Regions([a, b])], Ok([a, b])) && !Partitions([a, b])
  {
    ChainedMore([], a);
    ChainedMore([a], b);
    assert [] + [a] == [a] && [a] + [b] == [a, b];
    hide Chained;
    OnePage([a, b]);
    var key := OpenRegionsMeet(a, b);
    HeldTwice([a, b], 0, 1, key);
  }

  /** So is a chain that steps back: up to 5, back from 5 to 3, and on from 3. */
  lemma StepBackIsAccepted(a: Region, b: Region, c: Region)
    requires a.startKey == [] && a.endKey == [5]
    requires b.startKey == [5] && b.endKey == [3]
    requires c.startKey == [3] && c.endKey == []
    ensures Reports([Regions([a, b, c])], Ok([a, b, c])) && !Partitions([a, b, c]) && OnlyLastOpen([a, b, c])
  {
    StepBackIsChained(a, b, c);
    FourIsHeldTwice(a, b, c);
    OnlyThirdOpen(a, b, c);
    hide Chained, Reports, Partitions, OnlyLastOpen, EndOf;
    OnePage([a, b, c]);
  }

  lemma OnlyThirdOpen(a: Region, b: Region, c: Region)
    requires a.endKey != [] && b.endKey != [] && c.endKey == []
    ensures OnlyLastOpen([a, b, c])
  {
  }

  lemma StepBackIsChained(a: Region, b: Region, c: Region)
    requires a.startKey == [] && b.startKey == a.endKey && c.startKey == b.endKey && c.endKey == []
    ensures Chained([a, b, c]) && EndOf([a, b, c]) == []
  {
    ChainedMore([], a);
    ChainedMore([a], b);
    ChainedMore([a, b], c);
    assert [] + [a] == [a] && [a] + [b] == [a, b] && [a, b] + [c] == [a, b, c];
  }

  lemma FourIsHeldTwice(a: Region, b: Region, c: Region)
    requires a.startKey == [] && a.endKey == [5] && c.startKey == [3] && c.endKey == []
    ensures !Partitions([a, b, c])
  {
    hide OnlyIn;
    var three: Key, four: Key, five: Key := [3], [4], [5];
    assert Lt(three, four) && Lt(four, five);
    assert a.Contains(four) && c.Contains(four);
    HeldTwice([a, b, c], 0, 2, four);
  }
}
