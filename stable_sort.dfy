/**
 * `Array.prototype.sort` with a numeric comparator, as the quote store
 * calls it. The engine's sort is stable, and every comparator the store
 * passes orders by a key in descending order and returns 0 exactly when
 * the keys are equal; such a key is a `Rank` here. The sort is specified
 * by an insertion sort, and `StableSortUnique` shows that any stable sort
 * (the engine's included) returns the same sequence.
 */
module StableSort {

  /** A sort key: compared on `primary` first, then on `secondary`. */
  datatype Rank = Rank(primary: real, secondary: int)

  /** `a` ranks strictly ahead of `b`, i.e. the comparator puts `a` first. */
  predicate Ahead(a: Rank, b: Rank) {
    a.primary > b.primary || (a.primary == b.primary && a.secondary > b.secondary)
  }

  /** Nothing in `s` is ranked strictly ahead of an element before it. */
  ghost predicate SortedDesc<T>(s: seq<T>, key: T -> Rank) {
    forall i, j :: 0 <= i < j < |s| ==> !Ahead(key(s[j]), key(s[i]))
  }

  /** The elements of `s` whose key is exactly `k`, in their order in `s`. */
  function WithRank<T>(s: seq<T>, key: T -> Rank, k: Rank): seq<T>
  {
    if s == [] then []
    else (if key(s[0]) == k then [s[0]] else []) + WithRank(s[1..], key, k)
  }

  /**
   * Inserts `x` into the sorted `s` after every element ranked at least as
   * high as `x`, so that `x` follows the elements it ties with.
   */
  function Insert<T>(x: T, s: seq<T>, key: T -> Rank): (r: seq<T>)
    requires SortedDesc(s, key)
    ensures SortedDesc(r, key)
    ensures multiset(r) == multiset(s) + multiset{x}
    ensures |r| == |s| + 1
  {
    if s == [] then [x]
    else if Ahead(key(x), key(s[0])) then [x] + s
    else
      var rest := Insert(x, s[1..], key);
      assert forall k :: 0 <= k < |rest| ==> !Ahead(key(rest[k]), key(s[0])) by {
        forall k | 0 <= k < |rest| ensures !Ahead(key(rest[k]), key(s[0])) {
          assert rest[k] in multiset(rest);
          if rest[k] != x {
            assert rest[k] in multiset(s[1..]);
            var j :| 0 <= j < |s[1..]| && s[1..][j] == rest[k];
            assert s[j + 1] == rest[k];
          }
        }
      }
      assert s == [s[0]] + s[1..];
      [s[0]] + rest
  }

  /** The stable sort of `s`, highest rank first. */
  function SortDesc<T>(s: seq<T>, key: T -> Rank): (r: seq<T>)
    ensures SortedDesc(r, key)
    ensures multiset(r) == multiset(s)
    ensures |r| == |s|
  {
    if s == [] then []
    else
      var init := s[..|s| - 1];
      assert s == init + [s[|s| - 1]];
      Insert(s[|s| - 1], SortDesc(init, key), key)
  }

  lemma {:induction false} WithRankAppend<T>(a: seq<T>, b: seq<T>, key: T -> Rank, k: Rank)
    ensures WithRank(a + b, key, k) == WithRank(a, key, k) + WithRank(b, key, k)
  {
    if a == [] {
      assert a + b == b;
    } else {
      assert (a + b)[1..] == a[1..] + b;
      WithRankAppend(a[1..], b, key, k);
    }
  }

  lemma {:induction false} WithRankAbsent<T>(s: seq<T>, key: T -> Rank, k: Rank)
    requires forall j :: 0 <= j < |s| ==> key(s[j]) != k
    ensures WithRank(s, key, k) == []
  {
    if s != [] {
      WithRankAbsent(s[1..], key, k);
    }
  }

  lemma WithRankCons<T>(x: T, s: seq<T>, key: T -> Rank, k: Rank)
    ensures WithRank([x] + s, key, k) == (if key(x) == k then [x] else []) + WithRank(s, key, k)
  {
    assert ([x] + s)[1..] == s;
  }

  lemma WithRankSingle<T>(x: T, key: T -> Rank, k: Rank)
    ensures WithRank([x], key, k) == if key(x) == k then [x] else []
  {
    assert [x][1..] == [];
  }

  /** Inserting `x` appends it to its own tie class and leaves the other classes alone. */
  lemma {:induction false} InsertWithRank<T>(x: T, s: seq<T>, key: T -> Rank, k: Rank)
    requires SortedDesc(s, key)
    ensures WithRank(Insert(x, s, key), key, k) == WithRank(s, key, k) + (if key(x) == k then [x] else [])
  {
    if s == [] {
      WithRankSingle(x, key, k);
    } else if Ahead(key(x), key(s[0])) {
      InsertAheadWithRank(x, s, key, k);
    } else {
      InsertWithRank(x, s[1..], key, k);
      ConsClassStep(s[0], Insert(x, s[1..], key), s[1..], key, k, if key(x) == k then [x] else []);
      assert s == [s[0]] + s[1..];
    }
  }

  lemma InsertAheadWithRank<T>(x: T, s: seq<T>, key: T -> Rank, k: Rank)
    requires SortedDesc(s, key) && s != [] && Ahead(key(x), key(s[0]))
    ensures WithRank(Insert(x, s, key), key, k) == WithRank(s, key, k) + (if key(x) == k then [x] else [])
  {
    var r := [x] + s;
    assert r[1..] == s;
    assert Insert(x, s, key) == r;
    if key(x) == k {
      forall j | 0 <= j < |s| ensures key(s[j]) != k {
        HeadRanksHighest(s, key, j);
      }
      WithRankAbsent(s, key, k);
    }
  }

  lemma ConsClassStep<T>(y: T, rest: seq<T>, t: seq<T>, key: T -> Rank, k: Rank, tail: seq<T>)
    requires WithRank(rest, key, k) == WithRank(t, key, k) + tail
    ensures WithRank([y] + rest, key, k) == WithRank([y] + t, key, k) + tail
  {
    WithRankCons(y, rest, key, k);
    WithRankCons(y, t, key, k);
  }

  /** Stability: within every tie class the sorted order is the original order. */
  lemma {:induction false} SortStable<T>(s: seq<T>, key: T -> Rank, k: Rank)
    ensures WithRank(SortDesc(s, key), key, k) == WithRank(s, key, k)
  {
    if s != [] {
      var init, last := s[..|s| - 1], s[|s| - 1];
      var sortedInit := SortDesc(init, key);
      var tail := if key(last) == k then [last] else [];
      calc {
        WithRank(SortDesc(s, key), key, k);
        { assert SortDesc(s, key) == Insert(last, sortedInit, key); }
        WithRank(Insert(last, sortedInit, key), key, k);
        { InsertWithRank(last, sortedInit, key, k); }
        WithRank(sortedInit, key, k) + tail;
        { SortStable(init, key, k); }
        WithRank(init, key, k) + tail;
        { WithRankSingle(last, key, k); }
        WithRank(init, key, k) + WithRank([last], key, k);
        { WithRankAppend(init, [last], key, k); assert s == init + [last]; }
        WithRank(s, key, k);
      }
    }
  }

  /** The first element of a sorted sequence is ranked at least as high as any element. */
  lemma HeadRanksHighest<T>(s: seq<T>, key: T -> Rank, j: int)
    requires SortedDesc(s, key) && 0 <= j < |s|
    ensures !Ahead(key(s[j]), key(s[0]))
  {
  }

  /** A tie class is non-empty exactly when some element has that key; its first element is the first such one. */
  lemma {:induction false} WithRankHead<T>(s: seq<T>, key: T -> Rank, k: Rank)
    ensures WithRank(s, key, k) != [] <==> exists j :: 0 <= j < |s| && key(s[j]) == k
    ensures |s| > 0 && key(s[0]) == k ==> WithRank(s, key, k)[0] == s[0]
  {
    if s != [] {
      WithRankHead(s[1..], key, k);
      if exists j :: 0 <= j < |s[1..]| && key(s[1..][j]) == k {
        var j :| 0 <= j < |s[1..]| && key(s[1..][j]) == k;
        assert key(s[j + 1]) == k;
      }
      if exists j :: 0 <= j < |s| && key(s[j]) == k {
        var j :| 0 <= j < |s| && key(s[j]) == k;
        if j > 0 {
          assert key(s[1..][j - 1]) == k;
        }
      }
    }
  }

  /** A sequence whose tie classes are all empty is empty. */
  lemma NoClassesEmpty<T>(r1: seq<T>, r2: seq<T>, key: T -> Rank)
    requires r2 == [] && forall k :: WithRank(r1, key, k) == WithRank(r2, key, k)
    ensures r1 == []
  {
    if r1 != [] {
      WithRankHead(r1, key, key(r1[0]));
      WithRankHead(r2, key, key(r1[0]));
    }
  }

  /** Two non-empty sorted sequences with the same tie classes start with the same element. */
  lemma SameHead<T>(r1: seq<T>, r2: seq<T>, key: T -> Rank)
    requires r1 != [] && r2 != []
    requires SortedDesc(r1, key) && SortedDesc(r2, key)
    requires forall k :: WithRank(r1, key, k) == WithRank(r2, key, k)
    ensures r1[0] == r2[0]
  {
    var k1, k2 := key(r1[0]), key(r2[0]);
    assert !Ahead(k1, k2) by {
      WithRankHead(r1, key, k1);
      WithRankHead(r2, key, k1);
      var j :| 0 <= j < |r2| && key(r2[j]) == k1;
      HeadRanksHighest(r2, key, j);
    }
    assert !Ahead(k2, k1) by {
      WithRankHead(r1, key, k2);
      WithRankHead(r2, key, k2);
      var j :| 0 <= j < |r1| && key(r1[j]) == k2;
      HeadRanksHighest(r1, key, j);
    }
    assert k1 == k2;
    WithRankHead(r1, key, k1);
    WithRankHead(r2, key, k1);
    assert WithRank(r1, key, k1) == WithRank(r2, key, k1);
  }

  /** Removing the same first element from both sides keeps the tie classes equal. */
  lemma SameTailClasses<T>(r1: seq<T>, r2: seq<T>, key: T -> Rank, k: Rank)
    requires r1 != [] && r2 != [] && r1[0] == r2[0]
    requires WithRank(r1, key, k) == WithRank(r2, key, k)
    ensures WithRank(r1[1..], key, k) == WithRank(r2[1..], key, k)
  {
    var head := if key(r1[0]) == k then [r1[0]] else [];
    assert WithRank(r1, key, k) == head + WithRank(r1[1..], key, k);
    assert WithRank(r2, key, k) == head + WithRank(r2[1..], key, k);
    assert (head + WithRank(r1[1..], key, k))[|head|..] == WithRank(r1[1..], key, k);
    assert (head + WithRank(r2[1..], key, k))[|head|..] == WithRank(r2[1..], key, k);
  }

  /**
   * Uniqueness: two sorted sequences with the same tie classes are equal.
   * So every stable sort by `key` agrees with `SortDesc`.
   */
  lemma {:induction false} SortedSameClassesEqual<T>(r1: seq<T>, r2: seq<T>, key: T -> Rank)
    requires SortedDesc(r1, key) && SortedDesc(r2, key)
    requires forall k :: WithRank(r1, key, k) == WithRank(r2, key, k)
    ensures r1 == r2
    decreases |r1| + |r2|
  {
    if r2 == [] {
      NoClassesEmpty(r1, r2, key);
    } else if r1 == [] {
      NoClassesEmpty(r2, r1, key);
    } else {
      SameHead(r1, r2, key);
      forall k ensures WithRank(r1[1..], key, k) == WithRank(r2[1..], key, k) {
        SameTailClasses(r1, r2, key, k);
      }
      SortedSameClassesEqual(r1[1..], r2[1..], key);
      assert r1 == [r1[0]] + r1[1..] && r2 == [r2[0]] + r2[1..];
    }
  }

  /**
   * The first `m` elements of a sorted rearrangement of `s` are drawn from
   * `s`, and no occurrence they leave out is ranked ahead of any of them.
   */
  lemma SortedPrefixTakesTop<T>(s: seq<T>, sorted: seq<T>, key: T -> Rank, m: nat)
    requires SortedDesc(sorted, key) && multiset(sorted) == multiset(s) && m <= |sorted|
    ensures multiset(sorted[..m]) <= multiset(s)
    ensures forall x, k :: x in multiset(s) - multiset(sorted[..m]) && 0 <= k < m ==> !Ahead(key(x), key(sorted[k]))
  {
    assert sorted == sorted[..m] + sorted[m..];
    assert multiset(s) == multiset(sorted[..m]) + multiset(sorted[m..]);
    forall x, k | x in multiset(s) - multiset(sorted[..m]) && 0 <= k < m
      ensures !Ahead(key(x), key(sorted[k]))
    {
      LeftOutFollows(sorted, key, m, x, k);
    }
  }

  lemma LeftOutFollows<T>(sorted: seq<T>, key: T -> Rank, m: nat, x: T, k: nat)
    requires SortedDesc(sorted, key) && k < m <= |sorted| && x in sorted[m..]
    ensures !Ahead(key(x), key(sorted[k]))
  {
    var p :| 0 <= p < |sorted[m..]| && sorted[m..][p] == x;
    assert sorted[m + p] == x;
  }

  /** Any sorted rearrangement of `s` that keeps every tie class in order is `SortDesc(s, key)`. */
  lemma StableSortUnique<T>(s: seq<T>, r: seq<T>, key: T -> Rank)
    requires SortedDesc(r, key)
    requires forall k :: WithRank(r, key, k) == WithRank(s, key, k)
    ensures r == SortDesc(s, key)
  {
    forall k ensures WithRank(r, key, k) == WithRank(SortDesc(s, key), key, k) {
      SortStable(s, key, k);
    }
    SortedSameClassesEqual(r, SortDesc(s, key), key);
  }
}
