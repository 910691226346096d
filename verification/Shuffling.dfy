/** Fisher-Yates as a map from choices to orders.

Position by position from the last, an element from the unsettled part is exchanged in. Every such
sequence of choices keeps the elements, and on distinct elements each order is reached by exactly
one sequence; so choices that are uniform make the order uniform.
*/
module Shuffling {
  function Swap<T>(s: seq<T>, i: nat, j: nat): (r: seq<T>)
    requires i < |s| && j < |s|
    ensures |r| == |s|
  {
    s[i := s[j]][j := s[i]]
  }

  lemma SwapKeepsElements<T>(s: seq<T>, i: nat, j: nat)
    requires i < |s| && j < |s|
    ensures multiset(Swap(s, i, j)) == multiset(s)
  {
  }

  lemma SwapKeepsDistinct<T(!new)>(s: seq<T>, i: nat, j: nat)
    requires i < |s| && j < |s| && Distinct(s)
    ensures Distinct(Swap(s, i, j))
  {
  }

  /** One index for each position, at or below it. */
  ghost predicate Choices(c: seq<nat>) {
    forall i :: 0 <= i < |c| ==> c[i] <= i
  }

  /** Exchanges from the last chosen position down to the second. */
  ghost function Shuffled<T>(s: seq<T>, c: seq<nat>): (r: seq<T>)
    requires |c| <= |s| && Choices(c)
    ensures |r| == |s|
    decreases |c|
  {
    if |c| <= 1 then s else
      var i := |c| - 1;
      Shuffled(Swap(s, i, c[i]), c[..i])
  }

  lemma {:induction false} ShuffleKeepsElements<T>(s: seq<T>, c: seq<nat>)
    requires |c| <= |s| && Choices(c)
    ensures multiset(Shuffled(s, c)) == multiset(s)
    decreases |c|
  {
    if |c| > 1 {
      var i := |c| - 1;
      SwapKeepsElements(s, i, c[i]);
      ShuffleKeepsElements(Swap(s, i, c[i]), c[..i]);
    }
  }

  /** A position that has been passed is not touched again. */
  lemma {:induction false} Settled<T>(s: seq<T>, c: seq<nat>, k: nat)
    requires |c| <= |s| && Choices(c) && |c| <= k < |s|
    ensures Shuffled(s, c)[k] == s[k]
    decreases |c|
  {
    if |c| > 1 {
      var i := |c| - 1;
      Settled(Swap(s, i, c[i]), c[..i], k);
    }
  }

  ghost predicate Distinct<T(!new)>(s: seq<T>) {
    forall i, j :: 0 <= i < j < |s| ==> s[i] != s[j]
  }

  /** Different choices give different orders. */
  lemma {:induction false} ChoicesAreRecovered<T(!new)>(s: seq<T>, c: seq<nat>, d: seq<nat>)
    requires Distinct(s) && |c| == |d| <= |s| && Choices(c) && Choices(d)
    requires Shuffled(s, c) == Shuffled(s, d)
    ensures c == d
    decreases |c|
  {
    if |c| > 1 {
      var i := |c| - 1;
      LastIsRecovered(s, c, d);
      SwapKeepsDistinct(s, i, c[i]);
      ChoicesAreRecovered(Swap(s, i, c[i]), c[..i], d[..i]);
      assert c == c[..i] + [c[i]] && d == d[..i] + [d[i]];
    } else if |c| == 1 {
      assert c[0] == 0 == d[0];
    }
  }

  /** The element that ends up last tells where it was taken from. */
  lemma LastIsRecovered<T(!new)>(s: seq<T>, c: seq<nat>, d: seq<nat>)
    requires Distinct(s) && 1 < |c| == |d| <= |s| && Choices(c) && Choices(d)
    requires Shuffled(s, c) == Shuffled(s, d)
    ensures c[|c| - 1] == d[|c| - 1]
  {
    var i := |c| - 1;
    Settled(Swap(s, i, c[i]), c[..i], i);
    Settled(Swap(s, i, d[i]), d[..i], i);
    hide Shuffled;
    assert s[c[i]] == s[d[i]];
  }

  /** Every order that could be wanted is reached, by choosing for each position, from the last, the
      place its element stands at. */
  lemma {:induction false} ChoicesFor<T(!new)>(s: seq<T>, t: seq<T>, n: nat) returns (c: seq<nat>)
    requires |s| == |t| && n <= |s| && s[n..] == t[n..] && multiset(s) == multiset(t)
    ensures |c| == n && Choices(c) && Shuffled(s, c) == t
    decreases n
  {
    hide Swap, Shuffled;
    if n <= 1 {
      c := if n == 0 then [] else [0];
      if n == 1 {
        FirstIsForced(s, t);
      } else {
        assert s == s[0..] && t == t[0..];
      }
      ShuffledLast(s, c);
    } else {
      var i := n - 1;
      var j := PlaceOf(s, t, n);
      var u := Swap(s, i, j);
      SwapKeepsElements(s, i, j);
      SwapSettles(s, t, n, j);
      var rest := ChoicesFor(u, t, i);
      c := rest + [j];
      ShuffledStep(s, rest, j);
    }
  }

  lemma SwapSettles<T>(s: seq<T>, t: seq<T>, n: nat, j: nat)
    requires |s| == |t| && 1 <= n <= |s| && s[n..] == t[n..] && j < n && s[j] == t[n - 1]
    ensures Swap(s, n - 1, j)[n - 1..] == t[n - 1..]
  {
    var u := Swap(s, n - 1, j);
    forall k | n <= k < |s|
      ensures u[k] == t[k]
    {
      assert s[k] == s[n..][k - n] && t[k] == t[n..][k - n];
    }
  }

  lemma PrefixesAgree<T>(s: seq<T>, t: seq<T>, n: nat)
    requires |s| == |t| && n <= |s| && s[n..] == t[n..] && multiset(s) == multiset(t)
    ensures multiset(s[..n]) == multiset(t[..n])
  {
    assert s == s[..n] + s[n..] && t == t[..n] + t[n..];
    assert multiset(s) == multiset(s[..n]) + multiset(s[n..]);
    assert multiset(t) == multiset(t[..n]) + multiset(t[n..]);
    assert multiset(s[..n]) == multiset(s) - multiset(s[n..]);
    assert multiset(t[..n]) == multiset(t) - multiset(t[n..]);
  }

  lemma FirstIsForced<T>(s: seq<T>, t: seq<T>)
    requires |s| == |t| >= 1 && s[1..] == t[1..] && multiset(s) == multiset(t)
    ensures s == t
  {
    PrefixesAgree(s, t, 1);
    assert s[..1] == [s[0]] && t[..1] == [t[0]];
    assert multiset([s[0]])[s[0]] == 1;
    assert s[0] in multiset([t[0]]);
    assert s == s[..1] + s[1..] && t == t[..1] + t[1..];
  }

  lemma PlaceOf<T>(s: seq<T>, t: seq<T>, n: nat) returns (j: nat)
    requires |s| == |t| && 1 <= n <= |s| && s[n..] == t[n..] && multiset(s) == multiset(t)
    ensures j < n && s[j] == t[n - 1]
  {
    PrefixesAgree(s, t, n);
    assert t[..n][n - 1] == t[n - 1];
    assert t[n - 1] in multiset(s[..n]);
    assert t[n - 1] in s[..n];
    j :| 0 <= j < n && s[..n][j] == t[n - 1];
  }

  /** On distinct elements, choices and orders correspond one to one. */
  lemma ShuffleIsABijection<T(!new)>(s: seq<T>, t: seq<T>)
    requires Distinct(s) && multiset(s) == multiset(t)
    ensures exists c: seq<nat> ::
              && |c| == |s| && Choices(c) && Shuffled(s, c) == t
              && forall d: seq<nat> :: |d| == |s| && Choices(d) && Shuffled(s, d) == t ==> d == c
  {
    assert |s| == |multiset(s)| && |t| == |multiset(t)|;
    var c := ChoicesFor(s, t, |s|);
    forall d: seq<nat> | |d| == |s| && Choices(d) && Shuffled(s, d) == t
      ensures d == c
    {
      ChoicesAreRecovered(s, c, d);
    }
  }

  lemma ShuffledStep<T>(s: seq<T>, c: seq<nat>, j: nat)
    requires 1 <= |c| < |s| && Choices(c) && j <= |c|
    ensures Choices(c + [j]) && Shuffled(s, c + [j]) == Shuffled(Swap(s, |c|, j), c)
  {
    hide Swap, Shuffled;
    var d := c + [j];
    assert d[..|c|] == c && d[|c|] == j;
    Unfolded(s, d);
  }

  lemma Unfolded<T>(s: seq<T>, d: seq<nat>)
    requires 2 <= |d| <= |s| && Choices(d)
    ensures Shuffled(s, d) == Shuffled(Swap(s, |d| - 1, d[|d| - 1]), d[..|d| - 1])
  {
    hide Swap;
  }

  lemma ShuffledLast<T>(s: seq<T>, c: seq<nat>)
    requires |c| <= 1 && |c| <= |s| && Choices(c)
    ensures Shuffled(s, c) == s
  {
  }
}
