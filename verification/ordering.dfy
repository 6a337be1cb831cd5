/** The query operators the list endpoints compose: `Where`, `Skip`,
    `Take` and `OrderBy`/`OrderByDescending`. `Sort` is one particular
    stable sort. A database `ORDER BY` fixes no order among equal keys, so
    only its permutation and sortedness lemmas hold of every tie order;
    `SortedUnique` shows the order is forced when no two elements share a
    key. */
module Ordering {

  /** `le(a, b)`: `a` may come before `b`. */
  ghost predicate TotalPreorder<T(!new)>(le: (T, T) -> bool) {
    && (forall a, b :: le(a, b) || le(b, a))
    && (forall a, b, c :: le(a, b) && le(b, c) ==> le(a, c))
  }

  predicate SortedBy<T>(s: seq<T>, le: (T, T) -> bool) {
    forall i, j :: 0 <= i < j < |s| ==> le(s[i], s[j])
  }

  /** `Where`: the elements `p` accepts, in order, each as often as in `s`. */
  function Where<T(!new)>(s: seq<T>, p: T -> bool): (r: seq<T>)
    ensures |r| <= |s|
    ensures forall x :: multiset(r)[x] == if p(x) then multiset(s)[x] else 0
    ensures forall i :: 0 <= i < |r| ==> p(r[i]) && r[i] in s
  {
    if s == [] then []
    else
      var rest := Where(s[1..], p);
      assert s == [s[0]] + s[1..];
      if p(s[0]) then [s[0]] + rest else rest
  }

  /** `Skip(n).Take(m)` over an in-memory list; a negative count skips or
      takes nothing, as LINQ does. */
  function Window<T>(s: seq<T>, skip: int, take: int): (r: seq<T>)
    ensures |r| <= if take < 0 then 0 else take
    ensures 0 <= skip < |s| && 0 < take ==> r != [] && r[0] == s[skip]
    ensures var start := if skip < 0 then 0 else skip;
      forall i :: 0 <= i < |r| ==> start + i < |s| && r[i] == s[start + i]
  {
    var from := if skip < 0 then 0 else if skip > |s| then |s| else skip;
    var to := if take <= 0 then from else if from + take > |s| then |s| else from + take;
    s[from..to]
  }

  /** A window holds every element between its start and the end of the
      list, up to the requested count. */
  lemma WindowLength<T>(s: seq<T>, skip: int, take: int)
    requires 0 <= skip && 0 <= take
    ensures |Window(s, skip, take)| == if skip >= |s| then 0
                                       else if |s| - skip < take then |s| - skip else take
  {
  }

  /** No element occurs twice. */
  ghost predicate Distinct<T>(s: seq<T>) {
    forall i, j :: 0 <= i < j < |s| ==> s[i] != s[j]
  }

  /** An element at two positions is counted at least twice. */
  lemma RepeatCounted<T>(s: seq<T>, i: int, j: int)
    requires 0 <= i < j < |s| && s[i] == s[j]
    ensures multiset(s)[s[i]] >= 2
  {
    assert s == s[..i] + [s[i]] + s[i + 1..j] + [s[j]] + s[j + 1..];
  }

  /** In a list without repeats every element is counted at most once. */
  lemma {:induction false} DistinctCounted<T>(s: seq<T>, x: T)
    requires Distinct(s)
    ensures multiset(s)[x] <= 1
  {
    if s != [] {
      var init := s[..|s| - 1];
      assert s == init + [s[|s| - 1]];
      assert Distinct(init);
      DistinctCounted(init, x);
      if s[|s| - 1] == x {
        assert forall k :: 0 <= k < |init| ==> init[k] != x;
        assert x !in init;
      }
    }
  }

  /** A list whose counts never exceed those of a list without repeats has
      no repeats either, so reordering or filtering keeps distinctness. */
  lemma DistinctBelow<T>(s: seq<T>, t: seq<T>)
    requires Distinct(s)
    requires forall x :: multiset(t)[x] <= multiset(s)[x]
    ensures Distinct(t)
  {
    forall i, j | 0 <= i < j < |t| ensures t[i] != t[j] {
      if t[i] == t[j] {
        RepeatCounted(t, i, j);
        DistinctCounted(s, t[i]);
        assert false;
      }
    }
  }

  /** No two different elements of `m` share a key. */
  ghost predicate KeysDistinct<T>(m: multiset<T>, key: T -> int) {
    forall x, y :: x in m && y in m && key(x) == key(y) ==> x == y
  }

  ghost predicate NonIncreasing<T>(s: seq<T>, key: T -> int) {
    forall i, j :: 0 <= i < j < |s| ==> key(s[i]) >= key(s[j])
  }

  /** Two non-increasing lists with the same elements and no shared keys
      start with the same element: the one with the greatest key. */
  lemma SortedHeadsAgree<T>(s: seq<T>, t: seq<T>, key: T -> int)
    requires s != [] && multiset(s) == multiset(t)
    requires KeysDistinct(multiset(s), key)
    requires NonIncreasing(s, key) && NonIncreasing(t, key)
    ensures t != [] && s[0] == t[0]
  {
    assert s[0] in multiset(t);
    var j :| 0 <= j < |t| && t[j] == s[0];
    assert t[0] in multiset(s);
    var i :| 0 <= i < |s| && s[i] == t[0];
    assert key(s[0]) >= key(s[i]);
    assert key(t[0]) >= key(t[j]);
  }

  /** The tail of a non-increasing list is non-increasing. */
  lemma NonIncreasingTail<T>(s: seq<T>, key: T -> int)
    requires s != [] && NonIncreasing(s, key)
    ensures NonIncreasing(s[1..], key)
  {
    forall i, j | 0 <= i < j < |s| - 1 ensures key(s[1..][i]) >= key(s[1..][j]) {
      assert s[1..][i] == s[i + 1] && s[1..][j] == s[j + 1];
    }
  }

  /** Fewer elements share no more keys. */
  lemma KeysDistinctBelow<T>(m: multiset<T>, n: multiset<T>, key: T -> int)
    requires KeysDistinct(n, key) && m <= n
    ensures KeysDistinct(m, key)
  {
    forall x, y | x in m && y in m && key(x) == key(y) ensures x == y {
      assert x in n && y in n;
    }
  }

  /** Dropping a common head keeps the hypotheses of `SortedUnique`. */
  lemma TailsAgree<T>(s: seq<T>, t: seq<T>, key: T -> int)
    requires s != [] && t != [] && s[0] == t[0] && multiset(s) == multiset(t)
    requires KeysDistinct(multiset(s), key)
    requires NonIncreasing(s, key) && NonIncreasing(t, key)
    ensures multiset(s[1..]) == multiset(t[1..])
    ensures KeysDistinct(multiset(s[1..]), key)
    ensures NonIncreasing(s[1..], key) && NonIncreasing(t[1..], key)
  {
    assert s == [s[0]] + s[1..] && t == [t[0]] + t[1..];
    assert multiset(s[1..]) <= multiset(s);
    KeysDistinctBelow(multiset(s[1..]), multiset(s), key);
    NonIncreasingTail(s, key);
    NonIncreasingTail(t, key);
  }

  /** Two lists with the same elements, both with non-increasing keys,
      are equal when no two different elements share a key: without ties
      there is only one such order. */
  lemma {:induction false} SortedUnique<T>(s: seq<T>, t: seq<T>, key: T -> int)
    requires multiset(s) == multiset(t)
    requires KeysDistinct(multiset(s), key)
    requires NonIncreasing(s, key) && NonIncreasing(t, key)
    ensures s == t
    decreases |s|
  {
    if s == [] {
      assert |t| == |multiset(t)| == 0;
    } else {
      SortedHeadsAgree(s, t, key);
      TailsAgree(s, t, key);
      SortedUnique(s[1..], t[1..], key);
      SameHeadSameTail(s, t);
    }
  }

  /** Lists with equal heads and equal tails are equal. */
  lemma SameHeadSameTail<T>(s: seq<T>, t: seq<T>)
    requires s != [] && t != [] && s[0] == t[0] && s[1..] == t[1..]
    ensures s == t
  {
    assert s == [s[0]] + s[1..] && t == [t[0]] + t[1..];
  }

  /** Insert `x` before the first element it must precede. */
  function InsertSorted<T>(x: T, s: seq<T>, le: (T, T) -> bool): (r: seq<T>)
    ensures |r| == |s| + 1
    ensures multiset(r) == multiset(s) + multiset{x}
  {
    if s == [] || !le(s[0], x) then [x] + s
    else
      assert s == [s[0]] + s[1..];
      [s[0]] + InsertSorted(x, s[1..], le)
  }

  lemma {:induction false} InsertSortedSorted<T(!new)>(x: T, s: seq<T>, le: (T, T) -> bool)
    requires TotalPreorder(le)
    requires SortedBy(s, le)
    ensures SortedBy(InsertSorted(x, s, le), le)
  {
    var r := InsertSorted(x, s, le);
    if s == [] {
    } else if !le(s[0], x) {
      assert le(x, s[0]);
      forall i, j | 0 <= i < j < |r| ensures le(r[i], r[j]) {
        if i == 0 {
          assert r[j] == s[j - 1];
          if j > 1 {
            assert le(s[0], s[j - 1]);
          }
        } else {
          assert r[i] == s[i - 1] && r[j] == s[j - 1];
        }
      }
    } else {
      var tail := InsertSorted(x, s[1..], le);
      assert SortedBy(s[1..], le) by {
        forall i, j | 0 <= i < j < |s[1..]| ensures le(s[1..][i], s[1..][j]) {
          assert s[1..][i] == s[i + 1] && s[1..][j] == s[j + 1];
        }
      }
      InsertSortedSorted(x, s[1..], le);
      assert r == [s[0]] + tail;
      forall k | 0 <= k < |tail| ensures le(s[0], tail[k]) {
        assert tail[k] in multiset(tail);
        if tail[k] != x {
          assert tail[k] in multiset(s[1..]);
          var m :| 0 <= m < |s[1..]| && s[1..][m] == tail[k];
          assert s[1..][m] == s[m + 1];
        }
      }
      forall i, j | 0 <= i < j < |r| ensures le(r[i], r[j]) {
        if i == 0 {
          assert r[j] == tail[j - 1];
        } else {
          assert r[i] == tail[i - 1] && r[j] == tail[j - 1];
        }
      }
    }
  }

  /** `OrderBy` with comparator `le` (insertion sort). */
  function Sort<T>(s: seq<T>, le: (T, T) -> bool): (r: seq<T>)
    ensures |r| == |s|
    ensures multiset(r) == multiset(s)
  {
    if s == [] then []
    else
      assert s == [s[0]] + s[1..];
      InsertSorted(s[0], Sort(s[1..], le), le)
  }

  /** Under a total preorder the sort's output is ordered. */
  lemma {:induction false} SortSorted<T(!new)>(s: seq<T>, le: (T, T) -> bool)
    requires TotalPreorder(le)
    ensures SortedBy(Sort(s, le), le)
  {
    if s != [] {
      SortSorted(s[1..], le);
      InsertSortedSorted(s[0], Sort(s[1..], le), le);
    }
  }

  /** The comparator of `OrderByDescending(key)`. */
  function Descending<T(!new)>(key: T -> int): (le: (T, T) -> bool)
    ensures forall a, b :: le(a, b) <==> key(a) >= key(b)
  {
    (a: T, b: T) => key(a) >= key(b)
  }

  lemma DescendingIsTotalPreorder<T(!new)>(key: T -> int)
    ensures TotalPreorder(Descending(key))
  {
  }

  /** A list sorted by a descending key has its keys non-increasing. */
  lemma SortedDescendingKeys<T(!new)>(s: seq<T>, key: T -> int)
    requires SortedBy(s, Descending(key))
    ensures forall i, j :: 0 <= i < j < |s| ==> key(s[i]) >= key(s[j])
  {
    forall i, j | 0 <= i < j < |s| ensures key(s[i]) >= key(s[j]) {
      assert Descending(key)(s[i], s[j]);
    }
  }

  /** `Where(keep).OrderByDescending(key)`. */
  function SelectDescending<T(!new)>(s: seq<T>, keep: T -> bool, key: T -> int): (r: seq<T>)
    ensures |r| <= |s|
  {
    Sort(Where(s, keep), Descending(key))
  }

  /** The selection holds exactly the kept elements, each as often as in
      the source, with non-increasing keys. */
  lemma SelectDescendingLists<T(!new)>(s: seq<T>, keep: T -> bool, key: T -> int)
    ensures var r := SelectDescending(s, keep, key);
      && (forall x :: multiset(r)[x] == if keep(x) then multiset(s)[x] else 0)
      && (forall x :: x in r <==> x in s && keep(x))
      && (forall i, j :: 0 <= i < j < |r| ==> key(r[i]) >= key(r[j]))
  {
    var r := SelectDescending(s, keep, key);
    DescendingIsTotalPreorder(key);
    SortSorted(Where(s, keep), Descending(key));
    SortedDescendingKeys(r, key);
    forall x ensures x in r <==> x in s && keep(x) {
      assert x in r <==> multiset(r)[x] > 0;
      assert x in s <==> multiset(s)[x] > 0;
    }
  }
}
