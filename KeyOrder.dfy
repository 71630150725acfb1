/** The key order of `DoubleTranspositionCipher.GetKeyOrder`: the positions of
    a key listed by ascending code unit, equal code units keeping their
    original left-to-right order (LINQ `OrderBy` is a stable sort). */
module KeyOrder {
  import opened Text
  import opened Permutations

  /** Position `a` of `key` is listed before position `b`. */
  predicate Precedes(key: seq<CodeUnit>, a: nat, b: nat) {
    a < |key| && b < |key| && (key[a] < key[b] || (key[a] == key[b] && a < b))
  }

  /** `s` lists positions of `key` in strictly increasing `Precedes` order. */
  predicate SortedBy(key: seq<CodeUnit>, s: seq<nat>) {
    forall i, j :: 0 <= i < j < |s| ==> Precedes(key, s[i], s[j])
  }

  /** Puts position `x` after every position whose code unit is not above
      `key[x]`, one step of a stable insertion sort. */
  function Insert(key: seq<CodeUnit>, s: seq<nat>, x: nat): (r: seq<nat>)
    requires x < |key| && forall i :: 0 <= i < |s| ==> s[i] < |key|
    ensures |r| == |s| + 1
    ensures forall y :: y in r <==> y in s || y == x
  {
    if s == [] || key[x] < key[s[0]] then [x] + s
    else [s[0]] + Insert(key, s[1..], x)
  }

  /** Inserting a position beyond every listed one keeps the list sorted. */
  lemma {:induction false} InsertSorted(key: seq<CodeUnit>, s: seq<nat>, x: nat)
    requires x < |key| && forall i :: 0 <= i < |s| ==> s[i] < x
    requires SortedBy(key, s)
    ensures SortedBy(key, Insert(key, s, x))
  {
    if s == [] || key[x] < key[s[0]] {
      forall j | 0 < j < |s| + 1
        ensures Precedes(key, x, ([x] + s)[j])
      {
        if j > 1 {
          assert Precedes(key, s[0], s[j - 1]);
        }
      }
    } else {
      var rest := s[1..];
      assert SortedBy(key, rest) by {
        forall i, j | 0 <= i < j < |rest| ensures Precedes(key, rest[i], rest[j]) {
          assert rest[i] == s[i + 1] && rest[j] == s[j + 1];
        }
      }
      InsertSorted(key, rest, x);
      var r := [s[0]] + Insert(key, rest, x);
      forall j | 0 < j < |r| ensures Precedes(key, s[0], r[j]) {
        assert r[j] in Insert(key, rest, x);
        if r[j] != x {
          var k :| 0 <= k < |rest| && rest[k] == r[j];
          assert Precedes(key, s[0], s[k + 1]);
        }
      }
    }
  }

  /** The key order of the first `n` positions of `key`. */
  function KeyOrderOf(key: seq<CodeUnit>, n: nat): (r: seq<nat>)
    requires n <= |key|
    ensures |r| == n
    ensures forall y :: y in r <==> 0 <= y < n
    ensures SortedBy(key, r)
  {
    if n == 0 then []
    else
      var prev := KeyOrderOf(key, n - 1);
      assert forall i :: 0 <= i < |prev| ==> prev[i] in prev;
      InsertSorted(key, prev, n - 1);
      Insert(key, prev, n - 1)
  }

  /** `GetKeyOrder`: a permutation of `0..|key|-1` that lists the positions
      of `key` by ascending code unit, ties by ascending position. */
  function GetKeyOrder(key: seq<CodeUnit>): (order: seq<nat>)
    ensures IsPermutation(order, |key|)
    ensures forall i, j :: 0 <= i < j < |order| ==>
              key[order[i]] < key[order[j]]
              || (key[order[i]] == key[order[j]] && order[i] < order[j])
  {
    var order := KeyOrderOf(key, |key|);
    assert forall i, j :: 0 <= i < j < |order| ==> Precedes(key, order[i], order[j]);
    assert forall i :: 0 <= i < |order| ==> order[i] in order;
    order
  }

  /** Two sorted listings of the same positions are the same listing. */
  lemma {:induction false} SortedUnique(key: seq<CodeUnit>, p: seq<nat>, q: seq<nat>)
    requires SortedBy(key, p) && SortedBy(key, q)
    requires forall y :: y in p <==> y in q
    ensures p == q
    decreases |p|
  {
    assert p == [] <==> q == [] by {
      if p != [] { assert p[0] in p; }
      if q != [] { assert q[0] in q; }
    }
    if p != [] {
      assert p[0] in q && q[0] in p;
      var k :| 0 <= k < |q| && q[k] == p[0];
      var m :| 0 <= m < |p| && p[m] == q[0];
      assert forall i :: 0 < i < |q| ==> Precedes(key, q[0], q[i]);
      assert p[0] == q[0];
      var p', q' := p[1..], q[1..];
      assert SortedBy(key, p') by {
        forall i, j | 0 <= i < j < |p'| ensures Precedes(key, p'[i], p'[j]) {
          assert p'[i] == p[i + 1] && p'[j] == p[j + 1];
        }
      }
      assert SortedBy(key, q') by {
        forall i, j | 0 <= i < j < |q'| ensures Precedes(key, q'[i], q'[j]) {
          assert q'[i] == q[i + 1] && q'[j] == q[j + 1];
        }
      }
      forall y ensures y in p' <==> y in q' {
        if y in p' {
          var a :| 0 <= a < |p'| && p'[a] == y;
          assert Precedes(key, p[0], p[a + 1]);
          assert y in q && y != q[0];
        }
        if y in q' {
          var b :| 0 <= b < |q'| && q'[b] == y;
          assert Precedes(key, q[0], q[b + 1]);
          assert y in p && y != p[0];
        }
      }
      SortedUnique(key, p', q');
      assert p == [p[0]] + p' && q == [q[0]] + q';
    }
  }

  /** Any stable sort of the positions by code unit yields `GetKeyOrder`:
      the order does not depend on the sorting algorithm, only on the
      comparison and on stability. */
  lemma GetKeyOrderUnique(key: seq<CodeUnit>, order: seq<nat>)
    requires IsPermutation(order, |key|)
    requires forall i, j :: 0 <= i < j < |order| ==>
               key[order[i]] < key[order[j]]
               || (key[order[i]] == key[order[j]] && order[i] < order[j])
    ensures order == GetKeyOrder(key)
  {
    var g := GetKeyOrder(key);
    assert SortedBy(key, order);
    assert SortedBy(key, g);
    forall y ensures y in order <==> y in g {
      if y in order {
        var i :| 0 <= i < |order| && order[i] == y;
      }
      if y in g {
        var i :| 0 <= i < |g| && g[i] == y;
      }
    }
    SortedUnique(key, order, g);
  }
}
