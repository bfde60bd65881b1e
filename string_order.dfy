/** Python's ordering of `str` values (code point by code point, a proper prefix
    first) and the two sorts the models use: `sorted(set(xs))` and the stable
    `sorted(xs, key=...)`. */
module StringOrder {

  /** `a < b` on Python strings. */
  predicate Less(a: string, b: string)
    decreases |a|
  {
    if a == [] then b != []
    else b != [] && (a[0] < b[0] || (a[0] == b[0] && Less(a[1..], b[1..])))
  }

  lemma {:induction false} LessIrreflexive(a: string)
    ensures !Less(a, a)
  {
    if a != [] {
      LessIrreflexive(a[1..]);
    }
  }

  lemma {:induction false} LessTransitive(a: string, b: string, c: string)
    requires Less(a, b) && Less(b, c)
    ensures Less(a, c)
    decreases |a|
  {
    if a != [] && a[0] == b[0] && b[0] == c[0] {
      LessTransitive(a[1..], b[1..], c[1..]);
    }
  }

  lemma {:induction false} LessTotal(a: string, b: string)
    requires a != b
    ensures Less(a, b) || Less(b, a)
    decreases |a|
  {
    if a != [] && b != [] && a[0] == b[0] {
      assert a == [a[0]] + a[1..] && b == [b[0]] + b[1..];
      LessTotal(a[1..], b[1..]);
    }
  }

  lemma {:induction false} LessAsymmetric(a: string, b: string)
    requires Less(a, b)
    ensures !Less(b, a)
    decreases |a|
  {
    if a != [] && a[0] == b[0] {
      LessAsymmetric(a[1..], b[1..]);
    }
  }

  predicate StrictlySorted(xs: seq<string>) {
    forall i, j | 0 <= i < j < |xs| :: Less(xs[i], xs[j])
  }

  /** Inserts `x` into a strictly sorted list unless it is already there. */
  function Insert(x: string, xs: seq<string>): (r: seq<string>)
    requires StrictlySorted(xs)
    ensures StrictlySorted(r)
    ensures forall y :: y in r <==> y == x || y in xs
  {
    if xs == [] then [x]
    else if x == xs[0] then xs
    else if Less(x, xs[0]) then
      forall j | 0 < j < |xs| ensures Less(x, xs[j]) {
        LessTransitive(x, xs[0], xs[j]);
      }
      [x] + xs
    else
      LessTotal(x, xs[0]);
      var rest := Insert(x, xs[1..]);
      assert forall y | y in rest :: y == x || y in xs[1..];
      forall y | y in rest ensures Less(xs[0], y) {
        if y != x {
          var j :| 0 <= j < |xs[1..]| && xs[1..][j] == y;
          assert xs[j + 1] == y;
        }
      }
      [xs[0]] + rest
  }

  /** `sorted(set(xs))` */
  function SortedSet(xs: seq<string>): (r: seq<string>)
    ensures StrictlySorted(r)
    ensures forall y :: y in r <==> y in xs
  {
    if xs == [] then [] else Insert(xs[0], SortedSet(xs[1..]))
  }

  /** A strictly sorted list is determined by its elements: `SortedSet(xs)` is the
      one list Python's `sorted(set(xs))` can produce. */
  lemma {:induction false} SortedUnique(a: seq<string>, b: seq<string>)
    requires StrictlySorted(a) && StrictlySorted(b)
    requires forall y :: y in a <==> y in b
    ensures a == b
    decreases |a|
  {
    if a != [] && b != [] {
      assert a[0] == b[0] by {
        if a[0] != b[0] {
          assert a[0] in b && b[0] in a;
          var i :| 0 <= i < |b| && b[i] == a[0];
          var j :| 0 <= j < |a| && a[j] == b[0];
          assert i > 0 && j > 0;
          LessAsymmetric(b[0], a[0]);
        }
      }
      forall y ensures y in a[1..] <==> y in b[1..] {
        if y in a[1..] {
          var i :| 1 <= i < |a| && a[i] == y;
          assert Less(a[0], y);
          LessIrreflexive(y);
          assert y in b && y != b[0];
          var k :| 0 <= k < |b| && b[k] == y;
          assert k > 0;
        }
        if y in b[1..] {
          var i :| 1 <= i < |b| && b[i] == y;
          assert Less(b[0], y);
          LessIrreflexive(y);
          assert y in a && y != a[0];
          var k :| 0 <= k < |a| && a[k] == y;
          assert k > 0;
        }
      }
      SortedUnique(a[1..], b[1..]);
      assert a == [a[0]] + a[1..] && b == [b[0]] + b[1..];
    } else if a != [] {
      HeadIn(a);
      assert false;
    } else if b != [] {
      HeadIn(b);
      assert false;
    }
  }

  lemma HeadIn(a: seq<string>)
    requires a != []
    ensures a[0] in a
  {
  }

  /** Sorted by key, equal keys allowed. */
  predicate SortedBy<T>(xs: seq<T>, key: T -> string) {
    forall i, j | 0 <= i < j < |xs| :: !Less(key(xs[j]), key(xs[i]))
  }

  /** The elements with key `k`, in order. */
  function WithKey<T>(xs: seq<T>, key: T -> string, k: string): seq<T> {
    if xs == [] then []
    else if key(xs[0]) == k then [xs[0]] + WithKey(xs[1..], key, k)
    else WithKey(xs[1..], key, k)
  }

  /** Puts `x` before the first element whose key is not below `x`'s. */
  function InsertBy<T>(x: T, xs: seq<T>, key: T -> string): (r: seq<T>)
    requires SortedBy(xs, key)
    ensures SortedBy(r, key)
    ensures multiset(r) == multiset{x} + multiset(xs)
    ensures forall k :: WithKey(r, key, k) == (if key(x) == k then [x] + WithKey(xs, key, k) else WithKey(xs, key, k))
  {
    if xs == [] then [x]
    else if !Less(key(xs[0]), key(x)) then
      InsertFront(x, xs, key);
      [x] + xs
    else
      var rest := InsertBy(x, xs[1..], key);
      InsertLater(x, xs, rest, key);
      [xs[0]] + rest
  }

  lemma InsertFront<T>(x: T, xs: seq<T>, key: T -> string)
    requires SortedBy(xs, key)
    requires xs != [] && !Less(key(xs[0]), key(x))
    ensures SortedBy([x] + xs, key)
  {
    forall j | 0 <= j < |xs| ensures !Less(key(xs[j]), key(x)) {
      if j > 0 && key(xs[0]) != key(x) {
        LessTotal(key(xs[0]), key(x));
        if Less(key(xs[j]), key(x)) {
          LessTransitive(key(xs[j]), key(x), key(xs[0]));
        }
      }
    }
    assert ([x] + xs)[1..] == xs;
  }

  lemma InsertLater<T>(x: T, xs: seq<T>, rest: seq<T>, key: T -> string)
    requires SortedBy(xs, key)
    requires xs != [] && Less(key(xs[0]), key(x))
    requires SortedBy(rest, key)
    requires multiset(rest) == multiset{x} + multiset(xs[1..])
    requires forall k :: WithKey(rest, key, k) == (if key(x) == k then [x] + WithKey(xs[1..], key, k) else WithKey(xs[1..], key, k))
    ensures SortedBy([xs[0]] + rest, key)
    ensures multiset([xs[0]] + rest) == multiset{x} + multiset(xs)
    ensures forall k :: WithKey([xs[0]] + rest, key, k) == (if key(x) == k then [x] + WithKey(xs, key, k) else WithKey(xs, key, k))
  {
    assert xs == [xs[0]] + xs[1..];
    forall y | y in multiset(rest) ensures !Less(key(y), key(xs[0])) {
      if y != x {
        assert y in multiset(xs[1..]);
        var j :| 0 <= j < |xs[1..]| && xs[1..][j] == y;
        assert xs[j + 1] == y;
      } else {
        LessAsymmetric(key(xs[0]), key(x));
      }
    }
    forall j | 0 < j < |[xs[0]] + rest| ensures !Less(key(([xs[0]] + rest)[j]), key(xs[0])) {
      assert ([xs[0]] + rest)[j] == rest[j - 1] && rest[j - 1] in multiset(rest);
    }
    assert ([xs[0]] + rest)[1..] == rest;
    forall k ensures WithKey([xs[0]] + rest, key, k) == (if key(x) == k then [x] + WithKey(xs, key, k) else WithKey(xs, key, k)) {
      if key(x) == k {
        assert key(xs[0]) != k by { LessIrreflexive(key(x)); }
      }
    }
  }

  /** Python's stable `sorted(xs, key=key)`: sorted by key, a permutation, and the
      elements of each key in their original order. */
  function SortBy<T>(xs: seq<T>, key: T -> string): (r: seq<T>)
    ensures SortedBy(r, key)
    ensures multiset(r) == multiset(xs)
    ensures forall k :: WithKey(r, key, k) == WithKey(xs, key, k)
  {
    if xs == [] then []
    else
      var rest := SortBy(xs[1..], key);
      assert xs == [xs[0]] + xs[1..];
      InsertBy(xs[0], rest, key)
  }
}
