/**
 * The descending sort the console applies before deduplicating:
 * `s.sort((a, b) => key(b) - key(a))`. `Array.prototype.sort` is stable (section
 * 22.1.3.27 of ECMA-262, 10th edition), so elements with equal keys keep their order.
 */
module Ordering {
  import opened Seqs

  ghost predicate SortedDesc<T(!new)>(key: T -> int, s: seq<T>)
  {
    forall i, j :: 0 <= i < j < |s| ==> key(s[i]) >= key(s[j])
  }

  /** Places `x` before the first element whose key is not greater than its own. */
  function InsertDesc<T(!new)>(key: T -> int, x: T, s: seq<T>): (r: seq<T>)
    ensures |r| == |s| + 1
    decreases |s|
  {
    if |s| == 0 || key(x) >= key(s[0]) then [x] + s
    else [s[0]] + InsertDesc(key, x, s[1..])
  }

  /** Insertion adds exactly `x`, as often as once, and keeps a sorted list sorted. */
  lemma InsertDescFacts<T(!new)>(key: T -> int, x: T, s: seq<T>)
    ensures multiset(InsertDesc(key, x, s)) == multiset(s) + multiset{x}
    ensures forall y :: y in InsertDesc(key, x, s) <==> y == x || y in s
    ensures SortedDesc(key, s) ==> SortedDesc(key, InsertDesc(key, x, s))
  {
    InsertDescMultiset(key, x, s);
    InsertDescMembers(key, x, s);
    if SortedDesc(key, s) {
      InsertDescSorted(key, x, s);
    }
  }

  lemma {:induction false} InsertDescMultiset<T(!new)>(key: T -> int, x: T, s: seq<T>)
    ensures multiset(InsertDesc(key, x, s)) == multiset(s) + multiset{x}
    decreases |s|
  {
    if |s| > 0 && key(x) < key(s[0]) {
      assert s == [s[0]] + s[1..];
      InsertDescMultiset(key, x, s[1..]);
    }
  }

  lemma InsertDescMembers<T(!new)>(key: T -> int, x: T, s: seq<T>)
    ensures forall y :: y in InsertDesc(key, x, s) <==> y == x || y in s
  {
    var r := InsertDesc(key, x, s);
    InsertDescMultiset(key, x, s);
    forall y ensures y in r <==> y == x || y in s {
      assert y in r <==> y in multiset(r);
      assert y in s <==> y in multiset(s);
    }
  }

  lemma {:induction false} InsertDescSorted<T(!new)>(key: T -> int, x: T, s: seq<T>)
    requires SortedDesc(key, s)
    ensures SortedDesc(key, InsertDesc(key, x, s))
    decreases |s|
  {
    if |s| > 0 && key(x) < key(s[0]) {
      var rest := InsertDesc(key, x, s[1..]);
      var r := [s[0]] + rest;
      assert SortedDesc(key, s[1..]);
      InsertDescSorted(key, x, s[1..]);
      InsertDescMembers(key, x, s[1..]);
      assert InsertDesc(key, x, s) == r;
      forall j | 0 < j < |r| ensures key(r[0]) >= key(r[j]) {
        assert r[j] == rest[j - 1];
        assert rest[j - 1] in rest;
        if rest[j - 1] != x {
          assert rest[j - 1] in s[1..];
          var k :| 0 <= k < |s[1..]| && s[1..][k] == rest[j - 1];
          assert s[1..][k] == s[k + 1];
        }
      }
      forall i, j | 0 < i < j < |r| ensures key(r[i]) >= key(r[j]) {
        assert r[i] == rest[i - 1] && r[j] == rest[j - 1];
      }
    }
  }

  /**
   * Insertion sort from the back of the list: each element goes in front of the later
   * elements with the same key, which is what a stable descending sort does.
   */
  function SortDesc<T(!new)>(key: T -> int, s: seq<T>): (r: seq<T>)
    ensures |r| == |s|
    ensures multiset(r) == multiset(s)
    ensures forall y :: y in r <==> y in s
    ensures SortedDesc(key, r)
    decreases |s|
  {
    if |s| == 0 then []
    else
      assert s == [s[0]] + s[1..];
      var rest := SortDesc(key, s[1..]);
      InsertDescFacts(key, s[0], rest);
      InsertDesc(key, s[0], rest)
  }

  /**
   * The position of the element a stable descending sort puts first: the greatest key,
   * and among equal greatest keys the earliest position.
   */
  function LatestIndex<T(!new)>(key: T -> int, s: seq<T>): (i: nat)
    requires |s| > 0
    ensures i < |s|
    ensures forall j :: 0 <= j < |s| ==> key(s[j]) <= key(s[i])
    ensures forall j :: 0 <= j < i ==> key(s[j]) < key(s[i])
    decreases |s|
  {
    if |s| == 1 then 0
    else
      var m := LatestIndex(key, s[1..]) + 1;
      if key(s[0]) >= key(s[m]) then 0 else m
  }

  function LatestOf<T(!new)>(key: T -> int, s: seq<T>): T
    requires |s| > 0
  {
    s[LatestIndex(key, s)]
  }

  /** The head of the sorted list is the latest element, ties going to the earliest one. */
  lemma {:induction false} SortHead<T(!new)>(key: T -> int, s: seq<T>)
    requires |s| > 0
    ensures SortDesc(key, s)[0] == LatestOf(key, s)
    decreases |s|
  {
    if |s| > 1 {
      SortHead(key, s[1..]);
      var m := LatestIndex(key, s[1..]) + 1;
      assert s[1..][m - 1] == s[m];
    }
  }

  lemma {:induction false} FilterSorted<T(!new)>(key: T -> int, p: T -> bool, s: seq<T>)
    requires SortedDesc(key, s)
    ensures SortedDesc(key, Filter(p, s))
    decreases |s|
  {
    if |s| > 0 {
      FilterSorted(key, p, s[1..]);
      FilterMembers(p, s[1..]);
      var r := Filter(p, s);
      forall i, j | 0 <= i < j < |r| ensures key(r[i]) >= key(r[j]) {
        if p(s[0]) && i == 0 {
          assert r[j] in s[1..];
        } else if p(s[0]) {
          assert r[i] == Filter(p, s[1..])[i - 1] && r[j] == Filter(p, s[1..])[j - 1];
        }
      }
    }
  }

  lemma {:induction false} FilterInsert<T(!new)>(key: T -> int, p: T -> bool, x: T, s: seq<T>)
    requires SortedDesc(key, s)
    ensures Filter(p, InsertDesc(key, x, s)) ==
      if p(x) then InsertDesc(key, x, Filter(p, s)) else Filter(p, s)
    decreases |s|
  {
    if |s| == 0 || key(x) >= key(s[0]) {
      FilterInsertFront(key, p, x, s);
    } else {
      assert SortedDesc(key, s[1..]);
      FilterInsert(key, p, x, s[1..]);
      FilterInsertBehind(key, p, x, s);
    }
  }

  /** Inserting in front: the filtered list gets `x` in front too, where its own insertion puts it. */
  lemma FilterInsertFront<T(!new)>(key: T -> int, p: T -> bool, x: T, s: seq<T>)
    requires SortedDesc(key, s)
    requires |s| == 0 || key(x) >= key(s[0])
    ensures Filter(p, InsertDesc(key, x, s)) ==
      if p(x) then InsertDesc(key, x, Filter(p, s)) else Filter(p, s)
  {
    InsertInFront(key, x, s);
    FilterCons(p, x, s);
    if p(x) {
      var f := Filter(p, s);
      if |f| > 0 {
        FilterHeadBound(key, p, s);
      }
      InsertInFront(key, x, f);
    }
  }

  lemma InsertInFront<T(!new)>(key: T -> int, x: T, s: seq<T>)
    requires |s| == 0 || key(x) >= key(s[0])
    ensures InsertDesc(key, x, s) == [x] + s
  {
  }

  /** The first element kept by a filter of a sorted list has a key no greater than the list's head. */
  lemma FilterHeadBound<T(!new)>(key: T -> int, p: T -> bool, s: seq<T>)
    requires SortedDesc(key, s) && |Filter(p, s)| > 0
    ensures |s| > 0 && key(Filter(p, s)[0]) <= key(s[0])
  {
    var f := Filter(p, s);
    FilterMembers(p, s);
    assert f[0] in f;
    assert f[0] in s;
    var k :| 0 <= k < |s| && s[k] == f[0];
  }

  /** Inserting behind the head: the head is filtered alone and the insertion continues in the tail. */
  lemma FilterInsertBehind<T(!new)>(key: T -> int, p: T -> bool, x: T, s: seq<T>)
    requires |s| > 0 && key(x) < key(s[0])
    requires Filter(p, InsertDesc(key, x, s[1..])) ==
      if p(x) then InsertDesc(key, x, Filter(p, s[1..])) else Filter(p, s[1..])
    ensures Filter(p, InsertDesc(key, x, s)) ==
      if p(x) then InsertDesc(key, x, Filter(p, s)) else Filter(p, s)
  {
    var y, rest := s[0], s[1..];
    SplitHead(s);
    FilterInsertCons(key, p, x, y, rest);
  }

  /** `FilterInsertBehind` stated on an explicit head and tail. */
  lemma FilterInsertCons<T(!new)>(key: T -> int, p: T -> bool, x: T, y: T, rest: seq<T>)
    requires key(x) < key(y)
    requires Filter(p, InsertDesc(key, x, rest)) ==
      if p(x) then InsertDesc(key, x, Filter(p, rest)) else Filter(p, rest)
    ensures Filter(p, InsertDesc(key, x, [y] + rest)) ==
      if p(x) then InsertDesc(key, x, Filter(p, [y] + rest)) else Filter(p, [y] + rest)
  {
    var t := InsertDesc(key, x, rest);
    var g := Filter(p, rest);
    InsertBehindHead(key, x, y, rest);
    FilterCons(p, y, t);
    FilterCons(p, y, rest);
    if p(x) && p(y) {
      InsertBehindHead(key, x, y, g);
    }
  }

  lemma InsertBehindHead<T(!new)>(key: T -> int, x: T, y: T, s: seq<T>)
    requires key(x) < key(y)
    ensures InsertDesc(key, x, [y] + s) == [y] + InsertDesc(key, x, s)
  {
    assert ([y] + s)[0] == y && ([y] + s)[1..] == s;
  }

  /** Sorting and then filtering gives what filtering and then sorting gives. */
  lemma {:induction false} FilterSort<T(!new)>(key: T -> int, p: T -> bool, s: seq<T>)
    ensures Filter(p, SortDesc(key, s)) == SortDesc(key, Filter(p, s))
    decreases |s|
  {
    if |s| > 0 {
      FilterSort(key, p, s[1..]);
      FilterInsert(key, p, s[0], SortDesc(key, s[1..]));
    }
  }

  lemma {:induction false} SortConstant<T(!new)>(key: T -> int, s: seq<T>, k: int)
    requires forall i :: 0 <= i < |s| ==> key(s[i]) == k
    ensures SortDesc(key, s) == s
    decreases |s|
  {
    if |s| > 0 {
      SortConstant(key, s[1..], k);
    }
  }

  /** Stability: the elements sharing any one key come out in their original order. */
  lemma SortStable<T(!new)>(key: T -> int, s: seq<T>, k: int)
    ensures Filter(KeyIs(key, k), SortDesc(key, s)) == Filter(KeyIs(key, k), s)
  {
    var f := Filter(KeyIs(key, k), s);
    FilterSort(key, KeyIs(key, k), s);
    FilterMembers(KeyIs(key, k), s);
    forall i | 0 <= i < |f| ensures key(f[i]) == k {
      assert f[i] in f;
    }
    SortConstant(key, f, k);
  }

  /** A subsequence of a sorted list is sorted. */
  lemma {:induction false} SubsequenceSorted<T(!new)>(key: T -> int, r: seq<T>, s: seq<T>)
    requires SubsequenceOf(r, s) && SortedDesc(key, s)
    ensures SortedDesc(key, r)
    ensures forall i :: 0 <= i < |r| ==> |s| > 0 && key(r[i]) <= key(s[0])
    decreases |s|
  {
    if |r| > 0 {
      assert SortedDesc(key, s[1..]);
      if r[0] == s[0] && SubsequenceOf(r[1..], s[1..]) {
        SubsequenceSorted(key, r[1..], s[1..]);
        forall i | 0 <= i < |r| ensures key(r[i]) <= key(s[0]) {
          if i > 0 { assert r[i] == r[1..][i - 1]; }
        }
        forall i, j | 0 <= i < j < |r| ensures key(r[i]) >= key(r[j]) {
          assert r[j] == r[1..][j - 1];
          if i > 0 { assert r[i] == r[1..][i - 1]; }
        }
      } else {
        SubsequenceSorted(key, r, s[1..]);
      }
    }
  }
}
