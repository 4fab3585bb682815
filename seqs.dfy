/**
 * Sequence operations shared by the server's queries and the client's derived lists: a table
 * scan filtered by a WHERE clause or by `Array.prototype.filter`, the first match of a
 * `SELECT ... .get()` or `Array.prototype.find`, `ORDER BY ... DESC`, `reverse()` and `reduce`.
 */
module Seqs {
  import opened Wrappers

  /** The elements of `s` that satisfy `p`, in their original order. */
  function Filter<T(!new)>(s: seq<T>, p: T -> bool): (r: seq<T>)
    ensures |r| <= |s|
    ensures forall x :: x in r <==> x in s && p(x)
    ensures multiset(r) <= multiset(s)
  {
    if |s| == 0 then []
    else
      assert s == [s[0]] + s[1..];
      if p(s[0]) then [s[0]] + Filter(s[1..], p) else Filter(s[1..], p)
  }

  /** Filtering by two predicates that agree on every element gives the same list. */
  lemma {:induction false} FilterExt<T(!new)>(s: seq<T>, p: T -> bool, q: T -> bool)
    requires forall x :: x in s ==> p(x) == q(x)
    ensures Filter(s, p) == Filter(s, q)
  {
    if |s| > 0 {
      FilterExt(s[1..], p, q);
    }
  }

  /** Filtering twice is filtering once by the conjunction. */
  lemma {:induction false} FilterFilter<T(!new)>(s: seq<T>, p: T -> bool, q: T -> bool, pq: T -> bool)
    requires forall x :: x in s ==> pq(x) == (p(x) && q(x))
    ensures Filter(Filter(s, p), q) == Filter(s, pq)
  {
    if |s| > 0 {
      FilterFilter(s[1..], p, q, pq);
    }
  }

  /** A predicate every element satisfies keeps the whole list. */
  lemma {:induction false} FilterAll<T(!new)>(s: seq<T>, p: T -> bool)
    requires forall x :: x in s ==> p(x)
    ensures Filter(s, p) == s
  {
    if |s| > 0 {
      FilterAll(s[1..], p);
    }
  }

  /** A filter no element passes keeps nothing. */
  lemma {:induction false} FilterNone<T(!new)>(s: seq<T>, p: T -> bool)
    requires forall x :: x in s ==> !p(x)
    ensures Filter(s, p) == []
  {
    if |s| > 0 {
      assert s[0] in s;
      FilterNone(s[1..], p);
    }
  }

  /** Two complementary predicates split a list: their two filters have lengths summing to its length. */
  lemma {:induction false} FilterPartition<T(!new)>(s: seq<T>, p: T -> bool, q: T -> bool)
    requires forall x :: x in s ==> q(x) == !p(x)
    ensures |Filter(s, p)| + |Filter(s, q)| == |s|
  {
    if |s| > 0 {
      FilterPartition(s[1..], p, q);
    }
  }

  /** Filtering a list with one more element at the end. */
  lemma {:induction false} FilterAppend<T(!new)>(s: seq<T>, p: T -> bool, x: T)
    ensures Filter(s + [x], p) == Filter(s, p) + (if p(x) then [x] else [])
  {
    if |s| == 0 {
      assert s + [x] == [x];
    } else {
      var t := s + [x];
      assert t[0] == s[0] && t[1..] == s[1..] + [x];
      FilterAppend(s[1..], p, x);
      var rest := if p(x) then [x] else [];
      if p(s[0]) {
        calc {
          Filter(t, p);
          [s[0]] + Filter(s[1..] + [x], p);
          [s[0]] + (Filter(s[1..], p) + rest);
          ([s[0]] + Filter(s[1..], p)) + rest;
        }
      }
    }
  }

  /** `rel` holds of every pair of elements in list order (a WHERE clause keeps such an invariant). */
  ghost predicate Pairwise<T>(s: seq<T>, rel: (T, T) -> bool) {
    forall i, j :: 0 <= i < j < |s| ==> rel(s[i], s[j])
  }

  /** The tail of a pairwise-related list is pairwise related, and its head relates to all of it. */
  lemma TailPairwise<T>(s: seq<T>, rel: (T, T) -> bool)
    requires |s| > 0 && Pairwise(s, rel)
    ensures Pairwise(s[1..], rel)
    ensures forall y :: y in s[1..] ==> rel(s[0], y)
  {
    var tail := s[1..];
    forall i, j | 0 <= i < j < |tail| ensures rel(tail[i], tail[j]) {
      assert tail[i] == s[i + 1] && tail[j] == s[j + 1];
    }
    forall y | y in tail ensures rel(s[0], y) {
      var k :| 0 <= k < |tail| && tail[k] == y;
      assert s[k + 1] == y;
    }
  }

  /** A head related to every element of a pairwise-related list can go in front of it. */
  lemma ConsPairwise<T>(h: T, f: seq<T>, rel: (T, T) -> bool)
    requires Pairwise(f, rel) && forall y :: y in f ==> rel(h, y)
    ensures Pairwise([h] + f, rel)
  {
    var r := [h] + f;
    forall i, j | 0 <= i < j < |r| ensures rel(r[i], r[j]) {
      assert r[j] == f[j - 1] && f[j - 1] in f;
      if i > 0 {
        assert r[i] == f[i - 1];
      }
    }
  }

  /** Deleting rows never breaks an invariant that relates every earlier row to every later one. */
  lemma {:induction false} FilterPairwise<T(!new)>(s: seq<T>, p: T -> bool, rel: (T, T) -> bool)
    requires Pairwise(s, rel)
    ensures Pairwise(Filter(s, p), rel)
  {
    if |s| > 0 {
      TailPairwise(s, rel);
      FilterPairwise(s[1..], p, rel);
      if p(s[0]) {
        ConsPairwise(s[0], Filter(s[1..], p), rel);
      }
    }
  }


  /** Appending an element related to every earlier one keeps a pairwise invariant. */
  lemma PairwiseAppend<T>(s: seq<T>, rel: (T, T) -> bool, x: T)
    requires Pairwise(s, rel)
    requires forall y :: y in s ==> rel(y, x)
    ensures Pairwise(s + [x], rel)
  {
    var t := s + [x];
    forall i, j | 0 <= i < j < |t| ensures rel(t[i], t[j]) {
      if j == |s| {
        assert t[i] in s;
      } else {
        assert t[i] == s[i] && t[j] == s[j];
      }
    }
  }

  /** Ids that grow strictly along the table, as SQLite's rowids do in a table scan. */
  ghost predicate Increasing<T>(s: seq<T>, key: T -> int) {
    forall i, j :: 0 <= i < j < |s| ==> key(s[i]) < key(s[j])
  }

  /** The rowid SQLite gives the next row of an `INTEGER PRIMARY KEY` table: one more than the largest, 1 on an empty table. */
  function NextKey<T(!new)>(s: seq<T>, key: T -> int): (k: int)
    requires Increasing(s, key)
    ensures forall x :: x in s ==> key(x) < k
  {
    if |s| == 0 then 1 else key(s[|s| - 1]) + 1
  }

  /** Appending a row with a fresh, larger key keeps the keys increasing. */
  lemma AppendIncreasing<T>(s: seq<T>, key: T -> int, x: T)
    requires Increasing(s, key)
    requires forall y :: y in s ==> key(y) < key(x)
    ensures Increasing(s + [x], key)
  {
    var t := s + [x];
    forall i, j | 0 <= i < j < |t| ensures key(t[i]) < key(t[j]) {
      if j == |s| {
        assert t[i] in s;
      }
    }
  }

  /** Deleting rows keeps the remaining ids increasing. */
  lemma FilterIncreasing<T(!new)>(s: seq<T>, p: T -> bool, key: T -> int)
    ensures Increasing(s, key) ==> Increasing(Filter(s, p), key)
  {
    if Increasing(s, key) {
      var rel := (a: T, b: T) => key(a) < key(b);
      assert Pairwise(s, rel);
      FilterPairwise(s, p, rel);
      var r := Filter(s, p);
      assert forall i, j :: 0 <= i < j < |r| ==> rel(r[i], r[j]);
    }
  }

  /** The WHERE clause `<key> != id`. */
  function KeyIsNot<T>(key: T -> int, id: int): T -> bool {
    (x: T) => key(x) != id
  }

  /** `DELETE FROM <table> WHERE <key> = id`: every row whose key is `id` removed. */
  function Without<T(!new)>(s: seq<T>, key: T -> int, id: int): (r: seq<T>)
    ensures forall x :: x in r <==> x in s && key(x) != id
  {
    Filter(s, KeyIsNot(key, id))
  }

  lemma WithoutCons<T(!new)>(s: seq<T>, key: T -> int, id: int)
    requires |s| > 0
    ensures Without(s, key, id) == (if key(s[0]) != id then [s[0]] else []) + Without(s[1..], key, id)
  {
  }

  lemma TailIncreasing<T>(s: seq<T>, key: T -> int)
    requires |s| > 0 && Increasing(s, key)
    ensures Increasing(s[1..], key)
    ensures forall x :: x in s[1..] ==> key(s[0]) < key(x)
  {
    var tail := s[1..];
    forall i, j | 0 <= i < j < |tail| ensures key(tail[i]) < key(tail[j]) {
      assert tail[i] == s[i + 1] && tail[j] == s[j + 1];
    }
    forall x | x in tail ensures key(s[0]) < key(x) {
      var j :| 0 <= j < |tail| && tail[j] == x;
      assert s[j + 1] == x;
    }
  }

  /** With unique keys, deleting by the key of a present row removes exactly that row. */
  lemma {:induction false} WithoutPresent<T(!new)>(s: seq<T>, key: T -> int, k: nat)
    requires Increasing(s, key) && k < |s|
    ensures Without(s, key, key(s[k])) == s[..k] + s[k + 1..]
  {
    var id := key(s[k]);
    var tail := s[1..];
    WithoutCons(s, key, id);
    if k == 0 {
      assert Without(tail, key, id) == tail by {
        TailIncreasing(s, key);
        WithoutAbsent(tail, key, id);
      }
    } else {
      assert Without(tail, key, id) == tail[..k - 1] + tail[k..] by {
        TailIncreasing(s, key);
        assert tail[k - 1] == s[k];
        WithoutPresent(tail, key, k - 1);
      }
      assert key(s[0]) != id;
      DropAtCons(s, k);
    }
  }

  lemma DropAtCons<T>(s: seq<T>, k: nat)
    requires 0 < k < |s|
    ensures s[..k] + s[k + 1..] == [s[0]] + (s[1..][..k - 1] + s[1..][k..])
  {
  }

  /** Deleting by a key no row has leaves the table as it was. */
  lemma WithoutAbsent<T(!new)>(s: seq<T>, key: T -> int, id: int)
    requires forall x :: x in s ==> key(x) != id
    ensures Without(s, key, id) == s
  {
    FilterAll(s, KeyIsNot(key, id));
  }

  /** `UPDATE <table> SET ... WHERE <key> = id`: every row whose key is `id` becomes `v`. */
  function Replace<T>(s: seq<T>, key: T -> int, id: int, v: T): (r: seq<T>)
    ensures |r| == |s|
    ensures forall i :: 0 <= i < |s| ==> r[i] == if key(s[i]) == id then v else s[i]
  {
    if |s| == 0 then []
    else [if key(s[0]) == id then v else s[0]] + Replace(s[1..], key, id, v)
  }

  /** Replacing rows by rows with the same key keeps the keys increasing. */
  lemma ReplaceIncreasing<T>(s: seq<T>, key: T -> int, id: int, v: T)
    requires Increasing(s, key) && key(v) == id
    ensures Increasing(Replace(s, key, id, v), key)
  {
    var r := Replace(s, key, id, v);
    assert forall i :: 0 <= i < |s| ==> key(r[i]) == key(s[i]);
  }

  /** The position of the first element satisfying `p`, or `|s|` when there is none. */
  function FirstIndex<T>(s: seq<T>, p: T -> bool): (k: nat)
    ensures k <= |s|
    ensures k < |s| ==> p(s[k])
    ensures forall j :: 0 <= j < k ==> !p(s[j])
  {
    if |s| == 0 then 0
    else if p(s[0]) then 0
    else 1 + FirstIndex(s[1..], p)
  }

  /** The first element satisfying `p` (a `.get()` on a table scan, or `Array.prototype.find`). */
  function Find<T(!new)>(s: seq<T>, p: T -> bool): (r: Option<T>)
    ensures r.Some? <==> exists x :: x in s && p(x)
    ensures r.Some? ==> r.value in s && p(r.value)
    ensures r.Some? ==> exists k :: 0 <= k < |s| && s[k] == r.value && forall j :: 0 <= j < k ==> !p(s[j])
  {
    var k := FirstIndex(s, p);
    if k < |s| then Some(s[k]) else None
  }

  /** Appending keeps an existing first match. */
  lemma FindAppend<T(!new)>(s: seq<T>, p: T -> bool, x: T)
    requires Find(s, p).Some?
    ensures Find(s + [x], p) == Find(s, p)
  {
    var k, k' := FirstIndex(s, p), FirstIndex(s + [x], p);
    assert (s + [x])[k] == s[k];
  }

  /** An element that does not match cannot be the first match. */
  lemma FindCons<T(!new)>(h: T, s: seq<T>, p: T -> bool)
    requires !p(h)
    ensures Find([h] + s, p) == Find(s, p)
  {
    assert ([h] + s)[1..] == s;
  }

  /** Filtering out only elements that do not match keeps the first match. */
  lemma {:induction false} FindFilter<T(!new)>(s: seq<T>, p: T -> bool, q: T -> bool)
    requires forall x :: x in s && p(x) ==> q(x)
    ensures Find(Filter(s, q), p) == Find(s, p)
  {
    if |s| > 0 {
      assert s == [s[0]] + s[1..];
      FindFilter(s[1..], p, q);
      if !p(s[0]) {
        FindCons(s[0], s[1..], p);
        if q(s[0]) {
          FindCons(s[0], Filter(s[1..], q), p);
        }
      }
    }
  }

  /**
   * An inner join on a unique key: each element of `xs` paired with the row `lookup` finds
   * for it, in the order of `xs`; elements with no matching row are dropped.
   */
  function Join<A(!new), B(!new)>(xs: seq<A>, lookup: A -> Option<B>): (r: seq<(A, B)>)
    ensures |r| <= |xs|
    ensures forall p :: p in r <==> p.0 in xs && lookup(p.0) == Some(p.1)
  {
    if |xs| == 0 then []
    else
      assert forall a :: a in xs <==> a == xs[0] || a in xs[1..];
      match lookup(xs[0])
      case Some(b) => [(xs[0], b)] + Join(xs[1..], lookup)
      case None => Join(xs[1..], lookup)
  }

  /** `rel` holds between the left elements of every earlier and every later pair. */
  ghost predicate PairwiseLeft<A, B>(r: seq<(A, B)>, rel: (A, A) -> bool) {
    forall i, j :: 0 <= i < j < |r| ==> rel(r[i].0, r[j].0)
  }

  /**
   * An inner join keeps, between the pairs it returns, a relation that held between every
   * earlier and every later element of its left side.
   */
  lemma {:induction false} JoinPairwise<A(!new), B(!new)>(xs: seq<A>, lookup: A -> Option<B>, rel: (A, A) -> bool)
    ensures Pairwise(xs, rel) ==> PairwiseLeft(Join(xs, lookup), rel)
  {
    if |xs| > 0 && Pairwise(xs, rel) {
      TailPairwise(xs, rel);
      JoinPairwise(xs[1..], lookup, rel);
      var rest := Join(xs[1..], lookup);
      match lookup(xs[0])
      case None =>
        assert Join(xs, lookup) == rest;
      case Some(b) =>
        var r := [(xs[0], b)] + rest;
        assert Join(xs, lookup) == r;
        forall i, j | 0 <= i < j < |r| ensures rel(r[i].0, r[j].0) {
          var y := rest[j - 1];
          assert r[j] == y && y in rest;
          assert y.0 in xs[1..];
          if i == 0 {
            assert r[i].0 == xs[0];
          } else {
            assert r[i] == rest[i - 1];
          }
        }
    }
  }

  /** No two pairs of `r` have left elements with the same key. */
  ghost predicate LeftKeysDistinct<A, B>(r: seq<(A, B)>, key: A -> int) {
    forall i, j :: 0 <= i < j < |r| ==> key(r[i].0) != key(r[j].0)
  }

  /** An inner join on the rows of a table with unique keys pairs each row at most once. */
  lemma JoinKeysDistinct<A(!new), B(!new)>(xs: seq<A>, lookup: A -> Option<B>, key: A -> int)
    requires Increasing(xs, key)
    ensures LeftKeysDistinct(Join(xs, lookup), key)
  {
    var rel := (a: A, b: A) => key(a) != key(b);
    assert Pairwise(xs, rel);
    JoinPairwise(xs, lookup, rel);
  }

  /** Rows with unique keys stay unique through a WHERE clause and an inner join. */
  lemma FilterJoinKeysDistinct<A(!new), B(!new)>(s: seq<A>, p: A -> bool, lookup: A -> Option<B>, key: A -> int)
    ensures Increasing(s, key) ==> LeftKeysDistinct(Join(Filter(s, p), lookup), key)
  {
    if Increasing(s, key) {
      FilterIncreasing(s, p, key);
      JoinKeysDistinct(Filter(s, p), lookup, key);
    }
  }

  /**
   * Rows with unique keys stay unique through a WHERE clause, an inner join and an ORDER BY:
   * no row of `s` is paired twice in the result.
   */
  lemma QueryKeepsKeysDistinct<A(!new), B(!new)>(s: seq<A>, p: A -> bool, lookup: A -> Option<B>, sortKey: ((A, B)) -> int, key: A -> int)
    ensures Increasing(s, key) ==> LeftKeysDistinct(SortDesc(Join(Filter(s, p), lookup), sortKey), key)
  {
    if Increasing(s, key) {
      var joined := Join(Filter(s, p), lookup);
      FilterJoinKeysDistinct(s, p, lookup, key);
      var pairKey := (e: (A, B)) => key(e.0);
      forall a, b | 0 <= a < b < |joined| ensures pairKey(joined[a]) != pairKey(joined[b]) {
        assert pairKey(joined[a]) == key(joined[a].0) && pairKey(joined[b]) == key(joined[b].0);
      }
      var r := SortDesc(joined, sortKey);
      PermutationKeepsDistinctKeys(r, joined, pairKey);
      forall a, b | 0 <= a < b < |r| ensures key(r[a].0) != key(r[b].0) {
        assert pairKey(r[a]) == key(r[a].0) && pairKey(r[b]) == key(r[b].0);
      }
    }
  }

  /** Each element mapped through `f`, in order (a SELECT list computed per row). */
  function Map<A(!new), B>(s: seq<A>, f: A -> B): (r: seq<B>)
    ensures |r| == |s|
    ensures forall i :: 0 <= i < |s| ==> r[i] == f(s[i])
    ensures forall x :: x in s ==> f(x) in r
  {
    seq(|s|, i requires 0 <= i < |s| => f(s[i]))
  }

  /** The distinct elements of `s`, each kept at its first occurrence (a GROUP BY's groups). */
  function Distinct<T(==,!new)>(s: seq<T>): (r: seq<T>)
    ensures forall x :: x in r <==> x in s
    ensures forall i, j :: 0 <= i < j < |r| ==> r[i] != r[j]
  {
    if |s| == 0 then []
    else
      var init, last := s[..|s| - 1], s[|s| - 1];
      assert s == init + [last];
      var rest := Distinct(init);
      if last in rest then rest else rest + [last]
  }

  /** Every earlier element has a key at least as large as every later one (`ORDER BY key DESC`). */
  ghost predicate SortedDesc<T>(s: seq<T>, key: T -> int) {
    forall i, j :: 0 <= i < j < |s| ==> key(s[i]) >= key(s[j])
  }

  /** Every earlier element has a key at most as large as every later one. */
  ghost predicate SortedAsc<T>(s: seq<T>, key: T -> int) {
    forall i, j :: 0 <= i < j < |s| ==> key(s[i]) <= key(s[j])
  }

  /** `x` placed into the descending list `s` ahead of the first element with a key not larger. */
  function InsertDesc<T>(x: T, s: seq<T>, key: T -> int): (r: seq<T>)
    requires SortedDesc(s, key)
    ensures SortedDesc(r, key)
    ensures multiset(r) == multiset(s) + multiset{x}
  {
    if |s| == 0 then [x]
    else if key(x) >= key(s[0]) then [x] + s
    else
      TailSortedDesc(s, key);
      var rest := InsertDesc(x, s[1..], key);
      InsertDescStep(x, s, key, rest);
      [s[0]] + rest
  }

  /** The recursive case of `InsertDesc`: the head goes back in front of the tail with `x` inserted. */
  lemma InsertDescStep<T>(x: T, s: seq<T>, key: T -> int, rest: seq<T>)
    requires |s| > 0 && SortedDesc(s, key) && key(x) < key(s[0])
    requires SortedDesc(rest, key) && multiset(rest) == multiset(s[1..]) + multiset{x}
    ensures SortedDesc([s[0]] + rest, key)
    ensures multiset([s[0]] + rest) == multiset(s) + multiset{x}
  {
    TailSortedDesc(s, key);
    ConsSortedDesc(s[0], rest, key, multiset(s[1..]) + multiset{x});
    assert s == [s[0]] + s[1..];
  }

  lemma TailSortedDesc<T>(s: seq<T>, key: T -> int)
    requires |s| > 0 && SortedDesc(s, key)
    ensures SortedDesc(s[1..], key)
    ensures forall y :: y in s[1..] ==> key(y) <= key(s[0])
  {
    forall y | y in s[1..] ensures key(y) <= key(s[0]) {
      var k :| 0 <= k < |s[1..]| && s[1..][k] == y;
      assert s[k + 1] == y;
    }
  }

  /** Putting `h` in front of a descending list whose elements all have keys at most `key(h)`. */
  lemma ConsSortedDesc<T>(h: T, rest: seq<T>, key: T -> int, m: multiset<T>)
    requires SortedDesc(rest, key)
    requires multiset(rest) == m
    requires forall y :: y in m ==> key(y) <= key(h)
    ensures SortedDesc([h] + rest, key)
  {
    var r := [h] + rest;
    forall i, j | 0 <= i < j < |r| ensures key(r[i]) >= key(r[j]) {
      if i == 0 {
        assert r[j] == rest[j - 1];
        assert rest[j - 1] in multiset(rest);
      } else {
        assert r[i] == rest[i - 1] && r[j] == rest[j - 1];
      }
    }
  }

  /** `s` ordered by `key`, largest first: a permutation of `s` that is sorted descending. */
  function SortDesc<T>(s: seq<T>, key: T -> int): (r: seq<T>)
    ensures SortedDesc(r, key)
    ensures multiset(r) == multiset(s)
    ensures |r| == |s|
  {
    if |s| == 0 then []
    else
      assert s == [s[0]] + s[1..];
      InsertDesc(s[0], SortDesc(s[1..], key), key)
  }

  /** A permutation has the same elements. */
  lemma SameElements<T>(r: seq<T>, s: seq<T>)
    requires multiset(r) == multiset(s)
    ensures forall x :: x in r <==> x in s
  {
    forall x ensures x in r <==> x in s {
      assert x in r <==> x in multiset(r);
      assert x in s <==> x in multiset(s);
    }
  }

  /** Every element of a list without repeats occurs in it once. */
  lemma {:induction false} NoRepeatsCount<T>(s: seq<T>, x: T)
    requires forall a, b :: 0 <= a < b < |s| ==> s[a] != s[b]
    ensures multiset(s)[x] <= 1
  {
    if |s| > 0 {
      var init, last := s[..|s| - 1], s[|s| - 1];
      assert s == init + [last];
      NoRepeatsCount(init, x);
    }
  }

  /** A permutation of a list without repeats has no repeats. */
  lemma PermutationKeepsDistinct<T>(r: seq<T>, s: seq<T>)
    requires multiset(r) == multiset(s)
    requires forall a, b :: 0 <= a < b < |s| ==> s[a] != s[b]
    ensures forall i, j :: 0 <= i < j < |r| ==> r[i] != r[j]
  {
    forall i, j | 0 <= i < j < |r| ensures r[i] != r[j] {
      if r[i] == r[j] {
        assert r == r[..j] + r[j..];
        assert r[i] in r[..j] && r[j] in r[j..];
        assert multiset(r)[r[i]] == multiset(r[..j])[r[i]] + multiset(r[j..])[r[i]];
        NoRepeatsCount(s, r[i]);
      }
    }
  }

  /** A permutation of a list whose elements have distinct keys has distinct keys. */
  lemma PermutationKeepsDistinctKeys<T>(r: seq<T>, s: seq<T>, key: T -> int)
    requires multiset(r) == multiset(s)
    requires forall a, b :: 0 <= a < b < |s| ==> key(s[a]) != key(s[b])
    ensures forall i, j :: 0 <= i < j < |r| ==> key(r[i]) != key(r[j])
  {
    PermutationKeepsDistinct(r, s);
    forall i, j | 0 <= i < j < |r| ensures key(r[i]) != key(r[j]) {
      assert r[i] in multiset(s) && r[j] in multiset(s);
      var a :| 0 <= a < |s| && s[a] == r[i];
      var b :| 0 <= b < |s| && s[b] == r[j];
      assert a != b;
    }
  }

  /** Sorting keeps the elements, and keeps keys distinct when they were. */
  lemma SortKeepsDistinctKeys<T>(s: seq<T>, sortKey: T -> int, key: T -> int)
    requires forall a, b :: 0 <= a < b < |s| ==> key(s[a]) != key(s[b])
    ensures var r := SortDesc(s, sortKey);
      && (forall x :: x in r <==> x in s)
      && (forall i, j :: 0 <= i < j < |r| ==> key(r[i]) != key(r[j]))
  {
    var r := SortDesc(s, sortKey);
    SameElements(r, s);
    PermutationKeepsDistinctKeys(r, s, key);
  }

  /** A prefix and the rest of a list split its elements. */
  lemma SplitMultiset<T>(s: seq<T>, k: nat)
    requires k <= |s|
    ensures multiset(s[..k]) + multiset(s[k..]) == multiset(s)
  {
    assert s == s[..k] + s[k..];
  }

  /** A prefix of a descending list is descending. */
  lemma PrefixSortedDesc<T>(s: seq<T>, key: T -> int, k: nat)
    requires k <= |s| && SortedDesc(s, key)
    ensures SortedDesc(s[..k], key)
  {
  }

  /**
   * Any arrangement `r` of the first `k` elements of a descending list leaves off only
   * elements no larger than those it holds.
   */
  lemma PrefixKeepsLargest<T>(s: seq<T>, key: T -> int, k: nat, r: seq<T>)
    requires k <= |s| && SortedDesc(s, key) && multiset(r) == multiset(s[..k])
    ensures forall x, m :: x in multiset(s) - multiset(r) && m in r ==> key(x) <= key(m)
  {
    SplitMultiset(s, k);
    forall x, m | x in multiset(s) - multiset(r) && m in r ensures key(x) <= key(m) {
      assert x in multiset(s[k..]);
      var j :| k <= j < |s| && s[j] == x;
      assert m in multiset(s[..k]);
      var i :| 0 <= i < k && s[i] == m;
    }
  }

  /** `s` back to front (`Array.prototype.reverse`). */
  function Reverse<T>(s: seq<T>): (r: seq<T>)
    ensures |r| == |s|
    ensures forall i :: 0 <= i < |s| ==> r[i] == s[|s| - 1 - i]
  {
    if |s| == 0 then [] else Reverse(s[1..]) + [s[0]]
  }

  /** Reversing a descending list gives an ascending one with the same elements. */
  lemma ReverseDesc<T>(s: seq<T>, key: T -> int)
    requires SortedDesc(s, key)
    ensures SortedAsc(Reverse(s), key)
    ensures multiset(Reverse(s)) == multiset(s)
  {
    var r := Reverse(s);
    forall i, j | 0 <= i < j < |r| ensures key(r[i]) <= key(r[j]) {
      assert r[i] == s[|s| - 1 - i] && r[j] == s[|s| - 1 - j];
    }
    ReverseMultiset(s);
  }

  lemma {:induction false} ReverseMultiset<T>(s: seq<T>)
    ensures multiset(Reverse(s)) == multiset(s)
  {
    if |s| > 0 {
      ReverseMultiset(s[1..]);
      assert s == [s[0]] + s[1..];
    }
  }

  /** `s.slice(0, n)`: the first `n` elements, or all of them when there are fewer. */
  function Take<T>(s: seq<T>, n: nat): (r: seq<T>)
    ensures r <= s
    ensures |r| == if |s| < n then |s| else n
  {
    if |s| <= n then s else s[..n]
  }

  /** The sum of `f` over `s` (`reduce((sum, x) => sum + f(x), 0)`). */
  function Sum<T>(s: seq<T>, f: T -> int): int {
    if |s| == 0 then 0 else Sum(s[..|s| - 1], f) + f(s[|s| - 1])
  }

  /** A sum of non-negative terms is non-negative and at least each of its terms. */
  lemma {:induction false} SumNonNegative<T>(s: seq<T>, f: T -> int)
    requires forall x :: x in s ==> f(x) >= 0
    ensures Sum(s, f) >= 0
    ensures forall x :: x in s ==> f(x) <= Sum(s, f)
  {
    if |s| > 0 {
      var init := s[..|s| - 1];
      assert forall x :: x in init ==> x in s;
      SumNonNegative(init, f);
      assert forall x :: x in s ==> x in init || x == s[|s| - 1];
    }
  }
}
