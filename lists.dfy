/**
 * Helpers shared by the modules: Min and Max, filtering, and the
 * stable sort that JavaScript's `Array.prototype.sort` performs. Every
 * comparator in the program compares up to four integer criteria in turn,
 * so a sort is given a key function into `Key` and orders keys
 * lexicographically, ascending (a descending criterion is negated).
 */
module Lists {

  function Min(x: int, y: int): int { if x <= y then x else y }
  function Max(x: int, y: int): int { if x >= y then x else y }

  datatype Key = Key(k0: int, k1: int, k2: int, k3: int)

  /** x may stand before y: the comparator returns a value <= 0. */
  predicate KeyLe(x: Key, y: Key) {
    if x.k0 != y.k0 then x.k0 < y.k0
    else if x.k1 != y.k1 then x.k1 < y.k1
    else if x.k2 != y.k2 then x.k2 < y.k2
    else x.k3 <= y.k3
  }

  /** KeyLe is a total preorder, so the comparators are consistent. */
  lemma KeyLeTotalPreorder(x: Key, y: Key, z: Key)
    ensures KeyLe(x, y) || KeyLe(y, x)
    ensures KeyLe(x, y) && KeyLe(y, z) ==> KeyLe(x, z)
  {
  }

  ghost predicate SortedBy<T>(s: seq<T>, key: T -> Key) {
    forall i, j :: 0 <= i < j < |s| ==> KeyLe(key(s[i]), key(s[j]))
  }

  /**
   * Inserts x before the first element it may precede: an element inserted
   * this way ends up ahead of the equal-keyed elements already in s.
   */
  function Insert<T>(x: T, s: seq<T>, key: T -> Key): (r: seq<T>)
    ensures multiset(r) == multiset(s) + multiset{x}
    ensures SortedBy(s, key) ==> SortedBy(r, key)
  {
    if |s| == 0 then [x]
    else if KeyLe(key(x), key(s[0])) then
      assert SortedBy(s, key) ==> SortedBy([x] + s, key) by {
        if SortedBy(s, key) {
          forall j | 0 < j < |s| ensures KeyLe(key(x), key(s[j])) {
            KeyLeTotalPreorder(key(x), key(s[0]), key(s[j]));
          }
        }
      }
      [x] + s
    else
      var rest := Insert(x, s[1..], key);
      assert s == [s[0]] + s[1..];
      assert SortedBy(s, key) ==> SortedBy([s[0]] + rest, key) by {
        if SortedBy(s, key) {
          InsertBehindHead(x, s, rest, key);
        }
      }
      [s[0]] + rest
  }

  /** When x goes behind the head of a sorted s, the head still leads the rest with x in it. */
  lemma InsertBehindHead<T>(x: T, s: seq<T>, rest: seq<T>, key: T -> Key)
    requires |s| > 0 && !KeyLe(key(x), key(s[0])) && SortedBy(s, key)
    requires multiset(rest) == multiset(s[1..]) + multiset{x} && SortedBy(rest, key)
    ensures SortedBy([s[0]] + rest, key)
  {
    forall j | 0 <= j < |rest| ensures KeyLe(key(s[0]), key(rest[j])) {
      assert rest[j] in multiset(rest);
      if rest[j] != x {
        assert rest[j] in multiset(s[1..]);
        var k :| 0 <= k < |s[1..]| && s[1..][k] == rest[j];
        assert s[k + 1] == rest[j];
      } else {
        KeyLeTotalPreorder(key(x), key(s[0]), key(s[0]));
      }
    }
  }

  /**
   * The stable sort of s by key (insertion sort, from the back): the result
   * is ordered by key and is a permutation of s.
   */
  function SortBy<T>(s: seq<T>, key: T -> Key): (r: seq<T>)
    ensures multiset(r) == multiset(s)
    ensures |r| == |s|
    ensures SortedBy(r, key)
  {
    if |s| == 0 then []
    else
      assert s == [s[0]] + s[1..];
      Insert(s[0], SortBy(s[1..], key), key)
  }

  lemma SortByMembership<T>(s: seq<T>, key: T -> Key, x: T)
    ensures x in SortBy(s, key) <==> x in s
  {
    var r := SortBy(s, key);
    assert x in r <==> x in multiset(r);
    assert x in s <==> x in multiset(s);
  }

  /** The elements of s that satisfy p, in their order in s. */
  function Filter<T(!new)>(s: seq<T>, p: T -> bool): (r: seq<T>)
    ensures |r| <= |s|
    ensures forall x :: x in r <==> x in s && p(x)
    ensures forall i :: 0 <= i < |r| ==> p(r[i])
  {
    if |s| == 0 then []
    else
      var rest := Filter(s[1..], p);
      assert forall x :: x in s <==> x == s[0] || x in s[1..];
      if p(s[0]) then [s[0]] + rest else rest
  }

  /** Nothing passes the filter when no element satisfies p. */
  lemma {:induction false} FilterNone<T(!new)>(s: seq<T>, p: T -> bool)
    requires forall x :: x in s ==> !p(x)
    ensures Filter(s, p) == []
  {
    if |s| > 0 {
      assert s[0] in s;
      assert forall x :: x in s[1..] ==> x in s;
      FilterNone(s[1..], p);
    }
  }

  /** Filtering keeps each element as often as s holds it, and no more. */
  lemma {:induction false} FilterMultiset<T(!new)>(s: seq<T>, p: T -> bool)
    ensures multiset(Filter(s, p)) <= multiset(s)
  {
    if |s| > 0 {
      var rest := Filter(s[1..], p);
      FilterMultiset(s[1..], p);
      assert multiset(s) == multiset{s[0]} + multiset(s[1..]) by {
        assert s == [s[0]] + s[1..];
      }
      if p(s[0]) {
        assert multiset(Filter(s, p)) == multiset{s[0]} + multiset(rest) by {
          assert Filter(s, p) == [s[0]] + rest;
        }
      }
    }
  }

  /** An element at two positions occurs at least twice. */
  lemma OccursTwice<T>(s: seq<T>, i: int, j: int)
    requires 0 <= i < j < |s|
    ensures s[i] == s[j] ==> multiset(s)[s[i]] >= 2
  {
    assert s == s[..j] + [s[j]] + s[j + 1..];
    assert s[..j][i] == s[i];
  }

  /** No two elements share a value under f (an id, a name). */
  predicate DistinctBy<T, U(==)>(s: seq<T>, f: T -> U) {
    forall i, j :: 0 <= i < j < |s| ==> f(s[i]) != f(s[j])
  }

  /** Two elements of s with the same f-value are the same element. */
  lemma SameKeySame<T, U>(s: seq<T>, f: T -> U, x: T, y: T)
    requires DistinctBy(s, f) && x in s && y in s && f(x) == f(y)
    ensures x == y
  {
    var i :| 0 <= i < |s| && s[i] == x;
    var j :| 0 <= j < |s| && s[j] == y;
    assert !(i < j) && !(j < i);
  }

  /** Two different elements of a list distinct under f have different f-values. */
  lemma DifferentKeys<T, U>(s: seq<T>, f: T -> U, x: T, y: T)
    requires DistinctBy(s, f) && x in s && y in s && x != y
    ensures f(x) != f(y)
  {
    var i :| 0 <= i < |s| && s[i] == x;
    var j :| 0 <= j < |s| && s[j] == y;
    assert i != j;
  }

  /** Joining two lists that are distinct under f and share no f-value keeps them distinct. */
  lemma AppendDistinct<T, U>(a: seq<T>, b: seq<T>, f: T -> U)
    requires DistinctBy(a, f) && DistinctBy(b, f)
    requires forall x, y :: x in a && y in b ==> f(x) != f(y)
    ensures DistinctBy(a + b, f)
  {
    var s := a + b;
    forall i, j | 0 <= i < j < |s| ensures f(s[i]) != f(s[j]) {
      if j < |a| {
        assert s[i] == a[i] && s[j] == a[j];
      } else if i >= |a| {
        assert s[i] == b[i - |a|] && s[j] == b[j - |a|];
      } else {
        assert s[i] == a[i] && s[j] == b[j - |a|];
      }
    }
  }

  /** Filtering keeps a list distinct under f. */
  lemma {:induction false} FilterKeepsDistinct<T(!new), U>(s: seq<T>, p: T -> bool, f: T -> U)
    requires DistinctBy(s, f)
    ensures DistinctBy(Filter(s, p), f)
  {
    if |s| > 0 {
      assert DistinctBy(s[1..], f) by {
        forall i, j | 0 <= i < j < |s| - 1 ensures f(s[1..][i]) != f(s[1..][j]) {
          assert s[1..][i] == s[i + 1] && s[1..][j] == s[j + 1];
        }
      }
      FilterKeepsDistinct(s[1..], p, f);
      var rest := Filter(s[1..], p);
      if p(s[0]) {
        forall x, y | x in [s[0]] && y in rest ensures f(x) != f(y) {
          var k :| 0 <= k < |s| - 1 && s[1..][k] == y;
          assert s[k + 1] == y;
        }
        AppendDistinct([s[0]], rest, f);
      }
    }
  }

  /** In a list distinct under f, no element occurs twice. */
  lemma {:induction false} AtMostOnce<T, U>(s: seq<T>, f: T -> U, x: T)
    requires DistinctBy(s, f)
    ensures multiset(s)[x] <= 1
  {
    if |s| > 0 {
      assert s == [s[0]] + s[1..];
      assert DistinctBy(s[1..], f) by {
        forall i, j | 0 <= i < j < |s| - 1 ensures f(s[1..][i]) != f(s[1..][j]) {
          assert s[1..][i] == s[i + 1] && s[1..][j] == s[j + 1];
        }
      }
      AtMostOnce(s[1..], f, x);
      forall k | 0 <= k < |s| - 1 ensures s[1..][k] != s[0] {
        assert s[1..][k] == s[k + 1];
      }
      assert s[0] !in s[1..];
    }
  }

  /** Sorting keeps a list distinct under f. */
  lemma SortByKeepsDistinct<T, U>(s: seq<T>, key: T -> Key, f: T -> U)
    requires DistinctBy(s, f)
    ensures DistinctBy(SortBy(s, key), f)
  {
    var r := SortBy(s, key);
    forall i, j | 0 <= i < j < |r| ensures f(r[i]) != f(r[j]) {
      assert r[i] in multiset(s) && r[j] in multiset(s);
      OccursTwice(r, i, j);
      AtMostOnce(s, f, r[i]);
      assert r[i] != r[j];
      var i' :| 0 <= i' < |s| && s[i'] == r[i];
      var j' :| 0 <= j' < |s| && s[j'] == r[j];
      assert i' != j';
    }
  }

  /** No element occurs twice. */
  predicate NoDuplicates<T(==)>(s: seq<T>) {
    forall i, j :: 0 <= i < j < |s| ==> s[i] != s[j]
  }
}
