/**
 * Stable sorting by a lexicographic key, the behaviour of Python's `sorted(xs, key=...)`
 * when the key is a tuple of numbers.  Keys are sequences of reals compared
 * lexicographically, as Python compares tuples.  A descending sort
 * (`reverse=True`, which Python also keeps stable) is a sort on the negated key.
 */
module StableSort {

  /** Lexicographic "less than or equal" on keys, as Python compares tuples. */
  predicate LexLe(a: seq<real>, b: seq<real>)
  {
    if a == [] then true
    else if b == [] then false
    else a[0] < b[0] || (a[0] == b[0] && LexLe(a[1..], b[1..]))
  }

  lemma {:induction false} LexLeReflexive(a: seq<real>)
    ensures LexLe(a, a)
  {
    if a != [] {
      LexLeReflexive(a[1..]);
    }
  }

  lemma {:induction false} LexLeTotal(a: seq<real>, b: seq<real>)
    ensures LexLe(a, b) || LexLe(b, a)
  {
    if a != [] && b != [] && a[0] == b[0] {
      LexLeTotal(a[1..], b[1..]);
    }
  }

  lemma {:induction false} LexLeTransitive(a: seq<real>, b: seq<real>, c: seq<real>)
    requires LexLe(a, b) && LexLe(b, c)
    ensures LexLe(a, c)
  {
    if a != [] && b != [] && c != [] && a[0] == b[0] && b[0] == c[0] {
      LexLeTransitive(a[1..], b[1..], c[1..]);
    }
  }

  lemma {:induction false} LexLeAntisymmetric(a: seq<real>, b: seq<real>)
    requires LexLe(a, b) && LexLe(b, a)
    ensures a == b
  {
    if a != [] && b != [] {
      LexLeAntisymmetric(a[1..], b[1..]);
      assert a == [a[0]] + a[1..] && b == [b[0]] + b[1..];
    }
  }

  /** Every element's key is at most every later element's key. */
  ghost predicate SortedBy<T>(s: seq<T>, key: T -> seq<real>)
  {
    forall i, j :: 0 <= i < j < |s| ==> LexLe(key(s[i]), key(s[j]))
  }

  /** The elements of `s` whose key is exactly `k`, in their order in `s`. */
  function WithKey<T>(s: seq<T>, key: T -> seq<real>, k: seq<real>): (r: seq<T>)
    ensures |r| <= |s|
    ensures forall x :: x in r ==> x in s && key(x) == k
  {
    if s == [] then []
    else (if key(s[0]) == k then [s[0]] else []) + WithKey(s[1..], key, k)
  }

  /** Inserts `x` in front of the first element whose key is not below `x`'s. */
  function Insert<T>(x: T, t: seq<T>, key: T -> seq<real>): seq<T>
  {
    if t == [] then [x]
    else if LexLe(key(x), key(t[0])) then [x] + t
    else [t[0]] + Insert(x, t[1..], key)
  }

  /** Insertion sort; earlier elements are inserted later, in front of equal keys. */
  function SortBy<T>(s: seq<T>, key: T -> seq<real>): seq<T>
  {
    if s == [] then [] else Insert(s[0], SortBy(s[1..], key), key)
  }

  lemma {:induction false} InsertPermutes<T>(x: T, t: seq<T>, key: T -> seq<real>)
    ensures multiset(Insert(x, t, key)) == multiset(t) + multiset{x}
  {
    if t != [] && !LexLe(key(x), key(t[0])) {
      InsertPermutes(x, t[1..], key);
      assert t == [t[0]] + t[1..];
    }
  }

  lemma {:induction false} InsertSorted<T>(x: T, t: seq<T>, key: T -> seq<real>)
    requires SortedBy(t, key)
    ensures SortedBy(Insert(x, t, key), key)
  {
    if t == [] {
    } else if LexLe(key(x), key(t[0])) {
      var r := [x] + t;
      forall i, j | 0 <= i < j < |r| ensures LexLe(key(r[i]), key(r[j])) {
        if i == 0 && j > 1 {
          LexLeTransitive(key(x), key(t[0]), key(t[j - 1]));
        }
      }
    } else {
      LexLeTotal(key(x), key(t[0]));
      InsertSorted(x, t[1..], key);
      InsertPermutes(x, t[1..], key);
      var rest := Insert(x, t[1..], key);
      var r := [t[0]] + rest;
      forall i, j | 0 <= i < j < |r| ensures LexLe(key(r[i]), key(r[j])) {
        if i == 0 {
          var y := r[j];
          assert y in multiset(rest);
          assert y == x || y in multiset(t[1..]);
          if y != x {
            var m :| 0 <= m < |t[1..]| && t[1..][m] == y;
            assert t[m + 1] == y;
          }
        }
      }
    }
  }

  /** The sort is a permutation of its input, in ascending key order. */
  lemma {:induction false} SortByCorrect<T>(s: seq<T>, key: T -> seq<real>)
    ensures multiset(SortBy(s, key)) == multiset(s)
    ensures SortedBy(SortBy(s, key), key)
  {
    if s != [] {
      SortByCorrect(s[1..], key);
      InsertPermutes(s[0], SortBy(s[1..], key), key);
      InsertSorted(s[0], SortBy(s[1..], key), key);
      assert s == [s[0]] + s[1..];
    }
  }

  lemma {:induction false} WithKeyAppend<T>(a: seq<T>, b: seq<T>, key: T -> seq<real>, k: seq<real>)
    ensures WithKey(a + b, key, k) == WithKey(a, key, k) + WithKey(b, key, k)
  {
    if a != [] {
      WithKeyAppend(a[1..], b, key, k);
      assert (a + b)[1..] == a[1..] + b;
      assert (a + b)[0] == a[0];
      var h := if key(a[0]) == k then [a[0]] else [];
      calc {
        WithKey(a + b, key, k);
        h + WithKey(a[1..] + b, key, k);
        h + (WithKey(a[1..], key, k) + WithKey(b, key, k));
        (h + WithKey(a[1..], key, k)) + WithKey(b, key, k);
      }
    } else {
      assert a + b == b;
    }
  }

  lemma {:induction false} InsertStable<T>(x: T, t: seq<T>, key: T -> seq<real>, k: seq<real>)
    ensures WithKey(Insert(x, t, key), key, k) == WithKey([x], key, k) + WithKey(t, key, k)
  {
    if t == [] {
    } else if LexLe(key(x), key(t[0])) {
      WithKeyAppend([x], t, key, k);
    } else {
      LexLeReflexive(key(x));
      var rest := Insert(x, t[1..], key);
      calc {
        WithKey(Insert(x, t, key), key, k);
        WithKey([t[0]] + rest, key, k);
        { WithKeyAppend([t[0]], rest, key, k); }
        WithKey([t[0]], key, k) + WithKey(rest, key, k);
        { InsertStable(x, t[1..], key, k); }
        WithKey([t[0]], key, k) + (WithKey([x], key, k) + WithKey(t[1..], key, k));
        { WithKeyOne(x, key, k); WithKeyOne(t[0], key, k);
          SwapEmpty(WithKey([x], key, k), WithKey([t[0]], key, k), WithKey(t[1..], key, k)); }
        WithKey([x], key, k) + (WithKey([t[0]], key, k) + WithKey(t[1..], key, k));
        { WithKeyAppend([t[0]], t[1..], key, k); assert t == [t[0]] + t[1..]; }
        WithKey([x], key, k) + WithKey(t, key, k);
      }
    }
  }

  /** Of two sequences at least one of which is empty, either may come first. */
  lemma SwapEmpty<T>(a: seq<T>, b: seq<T>, r: seq<T>)
    requires a == [] || b == []
    ensures b + (a + r) == a + (b + r)
  {
    if a == [] {
      assert a + (b + r) == b + r && b + (a + r) == b + r;
    } else {
      assert a + (b + r) == a + r && b + (a + r) == a + r;
    }
  }

  lemma WithKeyOne<T>(x: T, key: T -> seq<real>, k: seq<real>)
    ensures WithKey([x], key, k) == if key(x) == k then [x] else []
  {
    assert [x][1..] == [];
  }

  /**
   * Stability: for every key value, the elements carrying it appear in the
   * output in the same order as in the input.
   */
  lemma {:induction false} SortByStable<T>(s: seq<T>, key: T -> seq<real>, k: seq<real>)
    ensures WithKey(SortBy(s, key), key, k) == WithKey(s, key, k)
  {
    if s != [] {
      SortByStable(s[1..], key, k);
      InsertStable(s[0], SortBy(s[1..], key), key, k);
      WithKeyAppend([s[0]], s[1..], key, k);
      assert s == [s[0]] + s[1..];
    }
  }
}
