/** A stable sort by a natural-number key, the behaviour of JavaScript's
    `Array.prototype.sort` with a comparator `key(a) - key(b)`. */
module Sorting {

  ghost predicate SortedBy<T>(xs: seq<T>, key: T -> nat)
  {
    forall i, j :: 0 <= i < j < |xs| ==> key(xs[i]) <= key(xs[j])
  }

  /** Places `x` before the first element whose key is not smaller. */
  function Insert<T>(x: T, sorted: seq<T>, key: T -> nat): seq<T>
  {
    if sorted == [] || key(x) <= key(sorted[0]) then [x] + sorted
    else [sorted[0]] + Insert(x, sorted[1..], key)
  }

  lemma {:induction false} InsertPermutes<T>(x: T, sorted: seq<T>, key: T -> nat)
    ensures multiset(Insert(x, sorted, key)) == multiset(sorted) + multiset{x}
  {
    if sorted != [] && key(sorted[0]) < key(x) {
      InsertPermutes(x, sorted[1..], key);
      assert sorted == [sorted[0]] + sorted[1..];
    }
  }

  lemma {:induction false} InsertKeepsOrder<T>(x: T, sorted: seq<T>, key: T -> nat)
    requires SortedBy(sorted, key)
    ensures SortedBy(Insert(x, sorted, key), key)
  {
    if sorted != [] && key(sorted[0]) < key(x) {
      var head, rest := sorted[0], Insert(x, sorted[1..], key);
      InsertKeepsOrder(x, sorted[1..], key);
      InsertPermutes(x, sorted[1..], key);
      forall j | 0 <= j < |rest| ensures key(head) <= key(rest[j]) {
        assert rest[j] in multiset(rest);
        if rest[j] != x {
          assert rest[j] in multiset(sorted[1..]);
          var k :| 0 <= k < |sorted[1..]| && sorted[1..][k] == rest[j];
          assert sorted[k + 1] == rest[j];
        }
      }
      assert Insert(x, sorted, key) == [head] + rest;
    }
  }

  /** Insertion sort from the back: each element goes ahead of the
      later elements of equal key, so equal keys keep their input order. */
  function SortBy<T>(xs: seq<T>, key: T -> nat): (r: seq<T>)
    ensures multiset(r) == multiset(xs)
    ensures SortedBy(r, key)
  {
    if xs == [] then []
    else
      var rest := SortBy(xs[1..], key);
      InsertPermutes(xs[0], rest, key);
      InsertKeepsOrder(xs[0], rest, key);
      assert xs == [xs[0]] + xs[1..];
      Insert(xs[0], rest, key)
  }

  /** The elements whose key is `k`, in input order. */
  function WithKey<T>(xs: seq<T>, key: T -> nat, k: nat): (r: seq<T>)
    ensures |r| <= |xs|
    ensures forall i :: 0 <= i < |r| ==> key(r[i]) == k
  {
    if xs == [] then []
    else if key(xs[0]) == k then [xs[0]] + WithKey(xs[1..], key, k)
    else WithKey(xs[1..], key, k)
  }

  /** Inserting into a list in key order lands `x` right after the elements
      of smaller key and before the rest. */
  lemma {:induction false} InsertBetween<T>(x: T, lower: seq<T>, upper: seq<T>, key: T -> nat)
    requires forall i :: 0 <= i < |lower| ==> key(lower[i]) < key(x)
    requires upper != [] ==> key(x) <= key(upper[0])
    ensures Insert(x, lower + upper, key) == lower + [x] + upper
  {
    if lower == [] {
      assert lower + upper == upper;
    } else {
      assert (lower + upper)[0] == lower[0];
      assert (lower + upper)[1..] == lower[1..] + upper;
      InsertBetween(x, lower[1..], upper, key);
    }
  }

  lemma Assoc<T>(a: seq<T>, b: seq<T>, c: seq<T>)
    ensures a + (b + c) == a + b + c
  {
  }

  /** Where `x` lands in a list made of a key-0, a key-1 and a key-2 group. */
  lemma InsertIntoGroups<T>(x: T, a: seq<T>, b: seq<T>, c: seq<T>, key: T -> nat)
    requires key(x) <= 2
    requires forall i :: 0 <= i < |a| ==> key(a[i]) == 0
    requires forall i :: 0 <= i < |b| ==> key(b[i]) == 1
    requires forall i :: 0 <= i < |c| ==> key(c[i]) == 2
    ensures key(x) == 0 ==> Insert(x, a + b + c, key) == ([x] + a) + b + c
    ensures key(x) == 1 ==> Insert(x, a + b + c, key) == a + ([x] + b) + c
    ensures key(x) == 2 ==> Insert(x, a + b + c, key) == a + b + ([x] + c)
  {
    if key(x) == 0 {
      InsertBetween(x, [], a + b + c, key);
      assert [] + (a + b + c) == a + b + c;
      Assoc([x], a, b);
      Assoc([x] + a, b, c);
      Assoc([x], a + b, c);
    } else if key(x) == 1 {
      assert b + c != [] ==> key((b + c)[0]) >= 1;
      InsertBetween(x, a, b + c, key);
      Assoc(a, b, c);
      Assoc(a + [x], b, c);
      Assoc(a, [x], b);
    } else {
      assert forall i :: 0 <= i < |a + b| ==> key((a + b)[i]) < 2;
      InsertBetween(x, a + b, c, key);
      Assoc(a + b, [x], c);
    }
  }

  /** Stability for keys 0, 1 and 2: the sort yields the key-0 elements,
      then the key-1, then the key-2, each group in its input order. */
  lemma {:induction false} SortIsStable<T>(xs: seq<T>, key: T -> nat)
    requires forall x :: key(x) <= 2
    ensures SortBy(xs, key) == WithKey(xs, key, 0) + WithKey(xs, key, 1) + WithKey(xs, key, 2)
  {
    if xs == [] {
      assert SortBy(xs, key) == [];
    } else {
      var x, tail := xs[0], xs[1..];
      SortIsStable(tail, key);
      var a, b, c := WithKey(tail, key, 0), WithKey(tail, key, 1), WithKey(tail, key, 2);
      assert SortBy(xs, key) == Insert(x, a + b + c, key);
      InsertIntoGroups(x, a, b, c, key);
      assert WithKey(xs, key, 0) == if key(x) == 0 then [x] + a else a;
      assert WithKey(xs, key, 1) == if key(x) == 1 then [x] + b else b;
      assert WithKey(xs, key, 2) == if key(x) == 2 then [x] + c else c;
    }
  }
}
