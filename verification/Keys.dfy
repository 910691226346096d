/** Byte-string keys, in the order every store keeps them.

A key is a plain byte string and keys compare lexicographically. One convention runs through the
whole client: an empty key used as an *upper* bound is the end of the key space, while an empty
key used as a lower bound is its beginning.
*/
module Keys {
  type Byte = b: int | 0 <= b < 0x100
  type Key = seq<Byte>

  /** Lexicographic order on byte strings. */
  predicate Lt(a: Key, b: Key) {
    b != [] && (a == [] || a[0] < b[0] || (a[0] == b[0] && Lt(a[1..], b[1..])))
  }

  predicate Le(a: Key, b: Key) {
    a == b || Lt(a, b)
  }

  /** Whether `[start, end)` contains `key`, an empty `end` being the end of the key space. */
  predicate Owns(start: Key, end: Key, key: Key) {
    Le(start, key) && (end == [] || Lt(key, end))
  }

  /** Whether the bounds are in order; `[k, k)` is, and is an empty range. */
  predicate Ordered(start: Key, end: Key) {
    end == [] || Le(start, end)
  }

  /** The earlier of two exclusive upper bounds. */
  function ClampEnd(end: Key, boundary: Key): (r: Key)
    ensures r == end || r == boundary
    ensures Ordered(r, end) && Ordered(r, boundary)
    ensures r == [] ==> end == [] && boundary == []
  {
    LeIsNotLt(end, boundary);
    if boundary == [] then end
    else if end == [] || Lt(boundary, end) then boundary
    else end
  }

  lemma {:induction false} LtIrreflexive(a: Key)
    ensures !Lt(a, a)
  {
    if a != [] {
      LtIrreflexive(a[1..]);
    }
  }

  lemma {:induction false} LtTransitive(a: Key, b: Key, c: Key)
    requires Lt(a, b) && Lt(b, c)
    ensures Lt(a, c)
  {
    if a != [] && a[0] == b[0] == c[0] {
      LtTransitive(a[1..], b[1..], c[1..]);
    }
  }

  lemma {:induction false} LtTotal(a: Key, b: Key)
    ensures a == b || Lt(a, b) || Lt(b, a)
  {
    if a != [] && b != [] && a[0] == b[0] {
      LtTotal(a[1..], b[1..]);
      assert a == [a[0]] + a[1..] && b == [b[0]] + b[1..];
    }
  }

  /** `<=` is the negation of `<` the other way round. */
  lemma LeIsNotLt(a: Key, b: Key)
    ensures Le(a, b) <==> !Lt(b, a)
  {
    LtTotal(a, b);
    LtIrreflexive(a);
    if Lt(a, b) && Lt(b, a) {
      LtTransitive(a, b, a);
    }
  }

  lemma LtLeTransitive(a: Key, b: Key, c: Key)
    requires Lt(a, b) && Le(b, c)
    ensures Lt(a, c)
  {
    if b != c { LtTransitive(a, b, c); }
  }

  lemma LeLtTransitive(a: Key, b: Key, c: Key)
    requires Le(a, b) && Lt(b, c)
    ensures Lt(a, c)
  {
    if a != b { LtTransitive(a, b, c); }
  }

  lemma LeTransitive(a: Key, b: Key, c: Key)
    requires Le(a, b) && Le(b, c)
    ensures Le(a, c)
  {
    if a != b { LtLeTransitive(a, b, c); }
  }

  lemma SameKey(a: Key, b: Key)
    requires a != [] && b != []
    ensures a == b <==> a[0] == b[0] && a[1..] == b[1..]
  {
    assert a == [a[0]] + a[1..] && b == [b[0]] + b[1..];
  }

  /** The shortest key above the empty one. */
  lemma FirstNonEmpty(x: Key)
    ensures x != [] <==> Le([0], x)
  {
    var one: Key := [0];
    if x != [] {
      SameKey(one, x);
      if one[0] == x[0] && one != x {
        assert Lt(one[1..], x[1..]);
      }
      assert Le(one, x);
    }
  }

  /** Appending a zero byte gives the immediate successor: nothing lies strictly between. */
  lemma {:induction false} SuccessorIsImmediate(a: Key, x: Key)
    ensures Lt(a, a + [0])
    ensures Lt(a, x) <==> Le(a + [0], x)
  {
    var next := a + [0];
    if a == [] {
      assert next == [0];
      FirstNonEmpty(x);
    } else {
      assert next[0] == a[0] && next[1..] == a[1..] + [0];
      if x == [] {
        SuccessorIsImmediate(a[1..], []);
      } else {
        SameKey(next, x);
        SuccessorIsImmediate(a[1..], x[1..]);
      }
    }
  }
}
