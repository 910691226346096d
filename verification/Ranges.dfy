/** Range reads over a sorted database, stated twice: as a filter over every pair (`Select`), which
is what a reader expects of a range, and as one contiguous stretch of it, which is what the proofs
about paging and splitting use. */
module Ranges {
  import opened Keys

  datatype Pair = Pair(key: Key, value: seq<Byte>)

  ghost predicate Sorted(db: seq<Pair>) {
    forall i, j :: 0 <= i < j < |db| ==> Lt(db[i].key, db[j].key)
  }

  /** The contents of a store or of a whole cluster: pairs in key order, each key once. */
  type Database = db: seq<Pair> | Sorted(db) ghost witness []

  /** Every pair whose key lies in `[lo, hi)`, in key order. */
  function Select(db: seq<Pair>, lo: Key, hi: Key): seq<Pair> {
    if db == [] then []
    else if Owns(lo, hi, db[0].key) then [db[0]] + Select(db[1..], lo, hi)
    else Select(db[1..], lo, hi)
  }

  function Reverse<T>(s: seq<T>): (r: seq<T>)
    ensures |r| == |s|
    ensures forall i :: 0 <= i < |s| ==> r[i] == s[|s| - 1 - i]
  {
    seq(|s|, i requires 0 <= i < |s| => s[|s| - 1 - i])
  }

  /** The pairs of `[lo, hi)` in the order a scan of that direction meets them. */
  function Visit(db: seq<Pair>, lo: Key, hi: Key, reverse: bool): seq<Pair> {
    if reverse then Reverse(Select(db, lo, hi)) else Select(db, lo, hi)
  }

  /** How many pairs lie below `key`. */
  function Rank(db: Database, key: Key): (n: nat)
    ensures n <= |db|
    ensures forall i :: 0 <= i < |db| ==> (i < n <==> Lt(db[i].key, key))
  {
    if db == [] then 0
    else if Lt(db[0].key, key) then
      var rest: Database := db[1..];
      assert forall i :: 1 <= i < |db| ==> db[i] == rest[i - 1];
      1 + Rank(rest, key)
    else
      NoneBelow(db, key);
      0
  }

  lemma NoneBelow(db: Database, key: Key)
    requires db != [] && !Lt(db[0].key, key)
    ensures forall i :: 0 <= i < |db| ==> !Lt(db[i].key, key)
  {
    forall i | 0 < i < |db| ensures !Lt(db[i].key, key) {
      if Lt(db[i].key, key) {
        LtTransitive(db[0].key, db[i].key, key);
      }
    }
  }

  /** The same for an exclusive upper bound, where an empty key is the end of the key space. */
  function EndRank(db: Database, hi: Key): (n: nat)
    ensures n <= |db|
    ensures forall i :: 0 <= i < |db| ==> (i < n <==> hi == [] || Lt(db[i].key, hi))
  {
    if hi == [] then |db| else Rank(db, hi)
  }

  lemma {:induction false} SelectNothing(db: Database, lo: Key, hi: Key)
    requires forall i :: 0 <= i < |db| ==> !Owns(lo, hi, db[i].key)
    ensures Select(db, lo, hi) == []
  {
    if db != [] {
      assert forall i :: 0 <= i < |db[1..]| ==> db[1..][i] == db[i + 1];
      SelectNothing(db[1..], lo, hi);
    }
  }

  /** Bounds that meet or cross hold nothing. */
  lemma CrossedBounds(db: Database, lo: Key, hi: Key)
    requires hi != [] && Le(hi, lo)
    ensures Select(db, lo, hi) == []
  {
    forall i | 0 <= i < |db| ensures !Owns(lo, hi, db[i].key) {
      var key := db[i].key;
      LeIsNotLt(lo, key);
      if Lt(key, hi) {
        LtLeTransitive(key, hi, lo);
      }
    }
    SelectNothing(db, lo, hi);
  }

  lemma RankMonotone(db: Database, lo: Key, hi: Key)
    requires Ordered(lo, hi)
    ensures Rank(db, lo) <= EndRank(db, hi)
  {
    var a, b := Rank(db, lo), EndRank(db, hi);
    if b < a {
      LtLeTransitive(db[b].key, lo, hi);
    }
  }

  lemma TailSlice<T>(s: seq<T>, a: nat, b: nat, a': nat, b': nat)
    requires a <= b <= |s| && s != []
    requires a' == (if a == 0 then 0 else a - 1) && b' == (if b == 0 then 0 else b - 1)
    ensures s[a..b] == if a == 0 < b then [s[0]] + s[1..][a'..b'] else s[1..][a'..b']
  {
  }

  /** The pairs of a range are one contiguous stretch of a sorted database. */
  lemma {:induction false} SelectIsSlice(db: Database, lo: Key, hi: Key)
    requires Ordered(lo, hi)
    ensures Rank(db, lo) <= EndRank(db, hi)
    ensures Select(db, lo, hi) == db[Rank(db, lo)..EndRank(db, hi)]
  {
    RankMonotone(db, lo, hi);
    if db != [] {
      var rest: Database := db[1..];
      SelectIsSlice(rest, lo, hi);
      RankOfTail(db, lo);
      RankOfTail(db, hi);
      var a, b := Rank(db, lo), EndRank(db, hi);
      var a', b' := Rank(rest, lo), EndRank(rest, hi);
      LeIsNotLt(lo, db[0].key);
      assert Owns(lo, hi, db[0].key) <==> a == 0 < b;
      TailSlice(db, a, b, a', b');
    }
  }

  lemma RankIs(db: Database, key: Key, n: nat)
    requires n <= |db|
    requires forall i :: 0 <= i < |db| ==> (i < n <==> Lt(db[i].key, key))
    ensures Rank(db, key) == n
  {
    var m := Rank(db, key);
    assert m < |db| ==> (m < n <==> Lt(db[m].key, key));
    assert n < |db| ==> (n < m <==> Lt(db[n].key, key));
  }

  lemma RankOfTail(db: Database, key: Key)
    requires db != []
    ensures Sorted(db[1..])
    ensures Rank(db[1..], key) == if Rank(db, key) == 0 then 0 else Rank(db, key) - 1
  {
    var rest: Database := db[1..];
    var n := Rank(db, key);
    forall i | 0 <= i < |rest| ensures Lt(rest[i].key, key) <==> i < (if n == 0 then 0 else n - 1) {
      assert rest[i] == db[i + 1];
    }
    RankIs(rest, key, if n == 0 then 0 else n - 1);
  }

  /** A range is the part below any key of it followed by the part from that key on. */
  lemma SplitRange(db: Database, lo: Key, mid: Key, hi: Key)
    requires mid != [] && Le(lo, mid) && Ordered(mid, hi)
    ensures Select(db, lo, hi) == Select(db, lo, mid) + Select(db, mid, hi)
    ensures Visit(db, lo, hi, true) == Visit(db, mid, hi, true) + Visit(db, lo, mid, true)
  {
    if Lt(lo, mid) && Lt(mid, hi) {
      LtTransitive(lo, mid, hi);
    }
    SelectIsSlice(db, lo, hi);
    SelectIsSlice(db, lo, mid);
    SelectIsSlice(db, mid, hi);
    Adjacent(db, Rank(db, lo), Rank(db, mid), EndRank(db, hi));
    ReverseConcat(Select(db, lo, mid), Select(db, mid, hi));
  }

  lemma Adjacent<T>(s: seq<T>, i: nat, j: nat, k: nat)
    requires i <= j <= k <= |s|
    ensures s[i..k] == s[i..j] + s[j..k]
  {
  }

  lemma ReverseConcat<T>(s: seq<T>, t: seq<T>)
    ensures Reverse(s + t) == Reverse(t) + Reverse(s)
  {
  }

  /** Resuming a forward scan at the successor of the last key it was given loses nothing and
  repeats nothing; there is nothing left once that successor reaches the upper bound. */
  lemma ResumeForward(db: Database, lo: Key, hi: Key, n: nat)
    requires Ordered(lo, hi)
    requires 0 < n <= |Select(db, lo, hi)|
    ensures var next := Select(db, lo, hi)[n - 1].key + [0];
      if hi != [] && Le(hi, next) then n == |Select(db, lo, hi)|
      else Ordered(next, hi) && Select(db, next, hi) == Select(db, lo, hi)[n..]
  {
    SelectIsSlice(db, lo, hi);
    var a, b := Rank(db, lo), EndRank(db, hi);
    var last := db[a + n - 1].key;
    var next := last + [0];
    RankOfSuccessor(db, a + n - 1);
    LeIsNotLt(hi, next);
    if hi != [] && Le(hi, next) {
      if a + n < b {
        LtLeTransitive(db[a + n].key, hi, next);
      }
    } else {
      SelectIsSlice(db, next, hi);
      assert db[a + n..b] == db[a..b][n..];
    }
  }

  lemma RankOfKey(db: Database, k: nat)
    requires k < |db|
    ensures Rank(db, db[k].key) == k
  {
    forall i | 0 <= i < |db| ensures Lt(db[i].key, db[k].key) <==> i < k {
      LtIrreflexive(db[k].key);
      if i > k {
        LeIsNotLt(db[k].key, db[i].key);
      }
    }
    RankIs(db, db[k].key, k);
  }

  lemma RankOfSuccessor(db: Database, k: nat)
    requires k < |db|
    ensures Rank(db, db[k].key + [0]) == k + 1
  {
    var next := db[k].key + [0];
    RankOfKey(db, k);
    forall i | 0 <= i < |db| ensures Lt(db[i].key, next) <==> i < k + 1 {
      SuccessorIsImmediate(db[k].key, db[i].key);
      LeIsNotLt(next, db[i].key);
      if i > k {
        assert Lt(db[k].key, db[i].key);
      } else if i < k {
        LeIsNotLt(db[i].key, db[k].key);
      } else {
        LtIrreflexive(db[k].key);
      }
    }
    RankIs(db, next, k + 1);
  }

  /** The same downwards: the upper bound is exclusive, so naming the last key resumes below it. */
  lemma ResumeReverse(db: Database, lo: Key, hi: Key, n: nat)
    requires Ordered(lo, hi)
    requires 0 < n <= |Select(db, lo, hi)|
    ensures var visit := Visit(db, lo, hi, true);
      var last := visit[n - 1].key;
      if Le(last, lo) then n == |visit|
      else last != [] && Ordered(lo, last) && Visit(db, lo, last, true) == visit[n..]
  {
    var s := Select(db, lo, hi);
    assert Reverse(s)[n - 1] == s[|s| - n];
    ResumeBelow(db, lo, hi, n);
    ReverseOfPrefix(s, n);
  }

  lemma ResumeBelow(db: Database, lo: Key, hi: Key, n: nat)
    requires Ordered(lo, hi)
    requires 0 < n <= |Select(db, lo, hi)|
    ensures var s := Select(db, lo, hi);
      var last := s[|s| - n].key;
      if Le(last, lo) then n == |s|
      else last != [] && Ordered(lo, last) && Select(db, lo, last) == s[..|s| - n]
  {
    SelectIsSlice(db, lo, hi);
    var a, b := Rank(db, lo), EndRank(db, hi);
    var last := db[b - n].key;
    RankOfKey(db, b - n);
    LeIsNotLt(last, lo);
    LeIsNotLt(lo, last);
    if !Le(last, lo) {
      SelectIsSlice(db, lo, last);
      assert db[a..b - n] == db[a..b][..b - n - a];
    }
  }

  lemma ReverseOfPrefix<T>(s: seq<T>, n: nat)
    requires n <= |s|
    ensures Reverse(s)[n..] == Reverse(s[..|s| - n])
  {
  }

  /** A sub-range of a range is read out of either. */
  lemma {:induction false} SelectWithin(db: seq<Pair>, lo: Key, hi: Key, lo': Key, hi': Key)
    requires Le(lo, lo') && (hi == [] || (hi' != [] && Le(hi', hi)))
    ensures Select(Select(db, lo, hi), lo', hi') == Select(db, lo', hi')
  {
    if db != [] {
      SelectWithin(db[1..], lo, hi, lo', hi');
      var key := db[0].key;
      if Owns(lo', hi', key) {
        LeTransitive(lo, lo', key);
        if hi != [] {
          LtLeTransitive(key, hi', hi);
        }
      }
      if Owns(lo, hi, key) {
        assert Select(db, lo, hi)[1..] == Select(db[1..], lo, hi);
      }
    }
  }
}
