/**
 * Sequence operations the console applies to its log: `Array.prototype.filter`,
 * `Array.prototype.map`, and the scan that keeps the first element per key with a
 * JavaScript `Set` of keys already seen.
 */
module Seqs {

  /** `r` is `s` with some elements left out and the rest kept in their original order. */
  ghost predicate SubsequenceOf<T>(r: seq<T>, s: seq<T>)
    decreases |s|
  {
    if |r| == 0 then true
    else if |s| == 0 then false
    else (r[0] == s[0] && SubsequenceOf(r[1..], s[1..])) || SubsequenceOf(r, s[1..])
  }

  lemma {:induction false} SubsequenceOfSelf<T>(s: seq<T>)
    ensures SubsequenceOf(s, s)
    decreases |s|
  {
    if |s| > 0 {
      SubsequenceOfSelf(s[1..]);
    }
  }

  /** `Array.prototype.filter`: the elements satisfying `p`, in order. */
  function Filter<T>(p: T -> bool, s: seq<T>): seq<T>
    decreases |s|
  {
    if |s| == 0 then []
    else if p(s[0]) then [s[0]] + Filter(p, s[1..])
    else Filter(p, s[1..])
  }

  /** The filter keeps the elements satisfying `p` and only those. */
  lemma {:induction false} FilterMembers<T(!new)>(p: T -> bool, s: seq<T>)
    ensures forall x :: x in Filter(p, s) <==> x in s && p(x)
    decreases |s|
  {
    if |s| > 0 {
      FilterMembers(p, s[1..]);
      assert forall x :: x in s <==> x == s[0] || x in s[1..];
    }
  }

  /** The filter keeps the original order. */
  lemma {:induction false} FilterSubsequence<T>(p: T -> bool, s: seq<T>)
    ensures SubsequenceOf(Filter(p, s), s)
    decreases |s|
  {
    if |s| > 0 {
      var rest := Filter(p, s[1..]);
      FilterSubsequence(p, s[1..]);
      if p(s[0]) {
        assert ([s[0]] + rest)[1..] == rest;
      } else if |rest| > 0 {
        assert SubsequenceOf(rest, s[1..]);
      }
    }
  }

  /** `Array.prototype.map`. */
  function Map<T, U>(f: T -> U, s: seq<T>): (r: seq<U>)
    ensures |r| == |s|
    ensures forall i :: 0 <= i < |s| ==> r[i] == f(s[i])
    decreases |s|
  {
    if |s| == 0 then [] else [f(s[0])] + Map(f, s[1..])
  }

  /** The predicate "has key `k`", one term per key so that filters by it compare equal. */
  function KeyIs<T, K(==)>(key: T -> K, k: K): T -> bool
  {
    x => key(x) == k
  }

  /**
   * One left-to-right scan keeping an element only when its key is not yet in `seen`,
   * and adding the key once it is kept: the loop over a `Set` of processed keys.
   */
  function DedupBy<T(!new), K(==)>(key: T -> K, s: seq<T>, seen: set<K>): (r: seq<T>)
    ensures SubsequenceOf(r, s)
    ensures forall x :: x in r ==> x in s && key(x) !in seen
    ensures forall i, j :: 0 <= i < j < |r| ==> key(r[i]) != key(r[j])
    decreases |s|
  {
    if |s| == 0 then []
    else if key(s[0]) in seen then
      DedupBy(key, s[1..], seen)
    else
      [s[0]] + DedupBy(key, s[1..], seen + {key(s[0])})
  }

  /** The distinct values of `s` in first-occurrence order: `[...new Set(s)]`. */
  function Distinct<T(==,!new)>(s: seq<T>): (r: seq<T>)
    ensures SubsequenceOf(r, s)
    ensures forall i, j :: 0 <= i < j < |r| ==> r[i] != r[j]
    ensures forall x :: x in r <==> x in s
  {
    var r := DedupBy(Self, s, {});
    forall x | x in s ensures x in r {
      DedupKeepsFirst(Self, s, {}, x);
      var f := Filter(KeyIs(Self, x), s);
      FilterMembers(KeyIs(Self, x), s);
      FilterMembers(KeyIs(Self, x), r);
      assert KeyIs(Self, x)(x);
      assert x in f;
      assert Filter(KeyIs(Self, x), r) == [f[0]];
      assert f[0] in Filter(KeyIs(Self, x), r);
    }
    r
  }

  /** The key of an element that is its own key. */
  function Self<T>(x: T): T {
    x
  }

  /**
   * First-occurrence order: one more element extends the distinct values at the end
   * exactly when it is new.
   */
  lemma DistinctSnoc<T(!new)>(s: seq<T>, x: T)
    ensures Distinct(s + [x]) == Distinct(s) + (if x in s then [] else [x])
  {
    DedupSnoc(Self, s, x, {});
    OwnKeys(s);
  }

  lemma {:induction false} OwnKeys<T>(s: seq<T>)
    ensures forall x :: x in KeysOf(Self, s) <==> x in s
    decreases |s|
  {
    if |s| > 0 {
      OwnKeys(s[1..]);
      assert forall x :: x in s <==> x == s[0] || x in s[1..];
    }
  }

  /** The filter keeps every element satisfying `p` as often as `s` holds it, and no other. */
  lemma {:induction false} FilterMultiset<T(!new)>(p: T -> bool, s: seq<T>, x: T)
    ensures multiset(Filter(p, s))[x] == if p(x) then multiset(s)[x] else 0
    decreases |s|
  {
    if |s| > 0 {
      FilterMultiset(p, s[1..], x);
      assert s == [s[0]] + s[1..];
      FilterCons(p, s[0], s[1..]);
    }
  }

  lemma FilterCons<T>(p: T -> bool, x: T, s: seq<T>)
    ensures p(x) ==> Filter(p, [x] + s) == [x] + Filter(p, s)
    ensures !p(x) ==> Filter(p, [x] + s) == Filter(p, s)
  {
    assert ([x] + s)[0] == x && ([x] + s)[1..] == s;
  }

  lemma DedupCons<T(!new), K>(key: T -> K, x: T, s: seq<T>, seen: set<K>)
    ensures key(x) in seen ==> DedupBy(key, [x] + s, seen) == DedupBy(key, s, seen)
    ensures key(x) !in seen ==> DedupBy(key, [x] + s, seen) == [x] + DedupBy(key, s, seen + {key(x)})
  {
    assert ([x] + s)[0] == x && ([x] + s)[1..] == s;
  }

  lemma MapCons<T, U>(f: T -> U, x: T, s: seq<T>)
    ensures Map(f, [x] + s) == [f(x)] + Map(f, s)
  {
    assert ([x] + s)[0] == x && ([x] + s)[1..] == s;
  }

  lemma AppendAssoc<T>(a: seq<T>, b: seq<T>, c: seq<T>)
    ensures a + b + c == a + (b + c)
  {
  }

  lemma SplitHead<T>(s: seq<T>)
    requires |s| > 0
    ensures s == [s[0]] + s[1..]
  {
  }

  lemma {:induction false} FilterAppend<T(!new)>(p: T -> bool, a: seq<T>, b: seq<T>)
    ensures Filter(p, a + b) == Filter(p, a) + Filter(p, b)
    decreases |a|
  {
    if |a| == 0 {
      assert a + b == b;
    } else {
      assert (a + b)[1..] == a[1..] + b;
      FilterAppend(p, a[1..], b);
    }
  }

  /**
   * The scan keeps, for each key not already seen, exactly one element: the first one
   * of `s` with that key; for a key already seen it keeps none.
   */
  lemma {:induction false} DedupKeepsFirst<T(!new), K>(key: T -> K, s: seq<T>, seen: set<K>, k: K)
    ensures k in seen ==> Filter(KeyIs(key, k), DedupBy(key, s, seen)) == []
    ensures k !in seen ==>
      var f := Filter(KeyIs(key, k), s);
      Filter(KeyIs(key, k), DedupBy(key, s, seen)) == (if |f| == 0 then [] else [f[0]])
    decreases |s|
  {
    if |s| > 0 {
      if key(s[0]) in seen {
        DedupKeepsFirst(key, s[1..], seen, k);
      } else {
        DedupKeepsFirst(key, s[1..], seen + {key(s[0])}, k);
      }
    }
  }

  /** The keys of the elements of `s`. */
  ghost function KeysOf<T, K>(key: T -> K, s: seq<T>): set<K>
    decreases |s|
  {
    if |s| == 0 then {} else {key(s[0])} + KeysOf(key, s[1..])
  }

  /**
   * Scanning one more element extends the result at the end exactly when that element's
   * key has been seen neither before the scan nor earlier in it.
   */
  lemma {:induction false} DedupSnoc<T(!new), K>(key: T -> K, s: seq<T>, x: T, seen: set<K>)
    ensures DedupBy(key, s + [x], seen) ==
      DedupBy(key, s, seen) + (if key(x) in seen + KeysOf(key, s) then [] else [x])
    decreases |s|
  {
    if |s| == 0 {
      assert s + [x] == [x] + [];
      DedupCons(key, x, [], seen);
    } else {
      var y, rest := s[0], s[1..];
      var seen' := seen + {key(y)};
      SplitHead(s);
      AppendAssoc([y], rest, [x]);
      DedupCons(key, y, rest + [x], seen);
      DedupCons(key, y, rest, seen);
      if key(y) in seen {
        DedupSnoc(key, rest, x, seen);
        assert seen + KeysOf(key, s) == seen + KeysOf(key, rest);
      } else {
        DedupSnoc(key, rest, x, seen');
        assert seen + KeysOf(key, s) == seen' + KeysOf(key, rest);
        AppendAssoc([y], DedupBy(key, rest, seen'), if key(x) in seen' + KeysOf(key, rest) then [] else [x]);
      }
    }
  }

  lemma {:induction false} FilterAll<T(!new)>(p: T -> bool, s: seq<T>)
    requires forall x :: x in s ==> p(x)
    ensures Filter(p, s) == s
    decreases |s|
  {
    if |s| > 0 {
      assert s[0] in s;
      FilterAll(p, s[1..]);
      assert s == [s[0]] + s[1..];
    }
  }
}
