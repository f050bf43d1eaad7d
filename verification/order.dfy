/** Python's ordering of `str` values (code point by code point, a proper
    prefix first) and its stable `list.sort(key=...)`, which the catalog
    uses for attribute records and parent names. */
module Order {

  /** `a <= b` on Python strings. */
  predicate Below(a: string, b: string)
    decreases |a|
  {
    a == [] || (b != [] && (a[0] < b[0] || (a[0] == b[0] && Below(a[1..], b[1..]))))
  }

  lemma {:induction false} BelowTotal(a: string, b: string)
    ensures Below(a, b) || Below(b, a)
    decreases |a|
  {
    if a != [] && b != [] && a[0] == b[0] {
      BelowTotal(a[1..], b[1..]);
    }
  }

  lemma {:induction false} BelowTrans(a: string, b: string, c: string)
    requires Below(a, b) && Below(b, c)
    ensures Below(a, c)
    decreases |a|
  {
    if a != [] && a[0] == b[0] && b[0] == c[0] {
      BelowTrans(a[1..], b[1..], c[1..]);
    }
  }

  lemma {:induction false} BelowAntisym(a: string, b: string)
    requires Below(a, b) && Below(b, a)
    ensures a == b
    decreases |a|
  {
    if a != [] {
      BelowAntisym(a[1..], b[1..]);
      assert a == [a[0]] + a[1..] && b == [b[0]] + b[1..];
    }
  }

  lemma {:induction false} BelowRefl(a: string)
    ensures Below(a, a)
    decreases |a|
  {
    if a != [] {
      BelowRefl(a[1..]);
    }
  }

  /** Keys never decrease from left to right. */
  predicate SortedBy<T>(xs: seq<T>, key: T -> string)
  {
    forall i, j :: 0 <= i < j < |xs| ==> Below(key(xs[i]), key(xs[j]))
  }

  /** Puts x in front of the first element whose key is at least x's:
      after every element with a smaller key, before any with an equal one. */
  function Insert<T>(x: T, xs: seq<T>, key: T -> string): seq<T>
  {
    if xs == [] then [x]
    else if Below(key(x), key(xs[0])) then [x] + xs
    else [xs[0]] + Insert(x, xs[1..], key)
  }

  /** `xs.sort(key=key)`: an insertion sort; each element goes in front of
      the later ones with an equal key, so equal keys keep their order. */
  function SortBy<T>(xs: seq<T>, key: T -> string): seq<T>
  {
    if xs == [] then [] else Insert(xs[0], SortBy(xs[1..], key), key)
  }

  lemma {:induction false} InsertPermutes<T>(x: T, xs: seq<T>, key: T -> string)
    ensures multiset(Insert(x, xs, key)) == multiset(xs) + multiset{x}
    decreases |xs|
  {
    if xs != [] && !Below(key(x), key(xs[0])) {
      InsertPermutes(x, xs[1..], key);
      assert xs == [xs[0]] + xs[1..];
    }
  }

  /** The sort only reorders: the result is a permutation of the list. */
  lemma {:induction false} SortByPermutes<T>(xs: seq<T>, key: T -> string)
    ensures multiset(SortBy(xs, key)) == multiset(xs)
  {
    if xs != [] {
      SortByPermutes(xs[1..], key);
      InsertPermutes(xs[0], SortBy(xs[1..], key), key);
      assert xs == [xs[0]] + xs[1..];
    }
  }

  lemma {:induction false} InsertSorted<T>(x: T, xs: seq<T>, key: T -> string)
    requires SortedBy(xs, key)
    ensures SortedBy(Insert(x, xs, key), key)
    decreases |xs|
  {
    var r := Insert(x, xs, key);
    if xs == [] {
    } else if Below(key(x), key(xs[0])) {
      forall i, j | 0 <= i < j < |r| ensures Below(key(r[i]), key(r[j])) {
        if i == 0 && j > 1 {
          BelowTrans(key(x), key(xs[0]), key(xs[j - 1]));
        }
      }
    } else {
      BelowTotal(key(x), key(xs[0]));
      InsertSorted(x, xs[1..], key);
      InsertPermutes(x, xs[1..], key);
      var rest := Insert(x, xs[1..], key);
      assert r == [xs[0]] + rest;
      forall j | 0 <= j < |rest| ensures Below(key(xs[0]), key(rest[j])) {
        assert rest[j] in multiset(rest);
        assert rest[j] == x || rest[j] in multiset(xs[1..]);
        if rest[j] != x {
          var k :| 0 <= k < |xs[1..]| && xs[1..][k] == rest[j];
          assert xs[1..][k] == xs[k + 1];
        }
      }
    }
  }

  /** The sort orders by key. */
  lemma {:induction false} SortBySorted<T>(xs: seq<T>, key: T -> string)
    ensures SortedBy(SortBy(xs, key), key)
  {
    if xs != [] {
      SortBySorted(xs[1..], key);
      InsertSorted(xs[0], SortBy(xs[1..], key), key);
    }
  }

  /** The key of a plain `list.sort()` on strings. */
  function Identity(s: string): string { s }

  /** Sorting distinct strings gives a strictly increasing list of the same
      strings: Python's `list(s); l.sort()` for a set s. */
  lemma SortDistinct(xs: seq<string>)
    ensures var r := SortBy(xs, Identity);
            (forall x :: x in r <==> x in xs) &&
            ((forall i, j :: 0 <= i < j < |xs| ==> xs[i] != xs[j]) ==>
              forall i, j :: 0 <= i < j < |r| ==> Below(r[i], r[j]) && r[i] != r[j])
  {
    var r := SortBy(xs, Identity);
    SortBySorted(xs, Identity);
    SortByPermutes(xs, Identity);
    SameMembers(xs, r);
    if forall i, j :: 0 <= i < j < |xs| ==> xs[i] != xs[j] {
      forall x ensures multiset(r)[x] <= 1 {
        DistinctCount(xs, x);
      }
      NoRepeats(r);
    }
  }

  lemma SameMembers(xs: seq<string>, r: seq<string>)
    requires multiset(r) == multiset(xs)
    ensures forall x :: x in r <==> x in xs
  {
    assert forall x :: x in r <==> x in multiset(r);
    assert forall x :: x in xs <==> x in multiset(xs);
  }

  lemma {:induction false} DistinctCount(xs: seq<string>, x: string)
    requires forall i, j :: 0 <= i < j < |xs| ==> xs[i] != xs[j]
    ensures multiset(xs)[x] <= 1
  {
    if xs != [] {
      DistinctCount(xs[1..], x);
      assert xs == [xs[0]] + xs[1..];
      if xs[0] == x {
        assert x !in xs[1..];
      }
    }
  }

  /** A value that occurs at two positions is counted twice. */
  lemma TwiceCounted(r: seq<string>, i: nat, j: nat)
    requires i < j < |r|
    ensures r[i] == r[j] ==> multiset(r)[r[i]] >= 2
  {
    assert r == r[..i] + [r[i]] + r[i + 1..];
    assert r[j] in r[i + 1..];
  }

  lemma NoRepeats(r: seq<string>)
    requires forall x :: multiset(r)[x] <= 1
    ensures forall i, j :: 0 <= i < j < |r| ==> r[i] != r[j]
  {
    forall i, j | 0 <= i < j < |r| ensures r[i] != r[j] {
      TwiceCounted(r, i, j);
    }
  }

  /** The elements whose key is k, in order. */
  function WithKey<T>(xs: seq<T>, key: T -> string, k: string): seq<T>
  {
    if xs == [] then [] else (if key(xs[0]) == k then [xs[0]] else []) + WithKey(xs[1..], key, k)
  }

  lemma WithKeyCons<T>(x: T, xs: seq<T>, key: T -> string, k: string)
    ensures WithKey([x] + xs, key, k) == (if key(x) == k then [x] else []) + WithKey(xs, key, k)
  {
    assert ([x] + xs)[1..] == xs;
  }

  lemma {:induction false} InsertWithKey<T>(x: T, xs: seq<T>, key: T -> string, k: string)
    ensures WithKey(Insert(x, xs, key), key, k) == (if key(x) == k then [x] else []) + WithKey(xs, key, k)
    decreases |xs|
  {
    if xs == [] {
      assert Insert(x, xs, key) == [x] + [];
      WithKeyCons(x, [], key, k);
    } else if Below(key(x), key(xs[0])) {
      assert Insert(x, xs, key) == [x] + xs;
      WithKeyCons(x, xs, key, k);
    } else {
      InsertWithKey(x, xs[1..], key, k);
      InsertWithKeyLater(x, xs, key, k);
    }
  }

  /** The step of InsertWithKey where x goes past the first element. */
  lemma InsertWithKeyLater<T>(x: T, xs: seq<T>, key: T -> string, k: string)
    requires xs != [] && !Below(key(x), key(xs[0]))
    requires WithKey(Insert(x, xs[1..], key), key, k) == (if key(x) == k then [x] else []) + WithKey(xs[1..], key, k)
    ensures WithKey(Insert(x, xs, key), key, k) == (if key(x) == k then [x] else []) + WithKey(xs, key, k)
  {
    var rest := Insert(x, xs[1..], key);
    assert Insert(x, xs, key) == [xs[0]] + rest;
    var w := WithKey(xs[1..], key, k);
    var a := if key(xs[0]) == k then [xs[0]] else [];
    assert WithKey([xs[0]] + rest, key, k) == a + WithKey(rest, key, k) by {
      WithKeyCons(xs[0], rest, key, k);
    }
    assert WithKey(xs, key, k) == a + w by {
      assert xs == [xs[0]] + xs[1..];
      WithKeyCons(xs[0], xs[1..], key, k);
    }
    if key(x) == k {
      assert key(xs[0]) != k by {
        BelowRefl(key(x));
      }
      assert WithKey(rest, key, k) == [x] + w;
      assert a == [];
    } else {
      assert WithKey(rest, key, k) == w;
    }
  }

  /** The sort is stable: the elements that share a key come out in the
      order they went in. */
  lemma {:induction false} SortByStable<T>(xs: seq<T>, key: T -> string, k: string)
    ensures WithKey(SortBy(xs, key), key, k) == WithKey(xs, key, k)
  {
    if xs != [] {
      SortByStable(xs[1..], key, k);
      InsertWithKey(xs[0], SortBy(xs[1..], key), key, k);
    }
  }
}
