/** The pandas pipeline steps the aggregations share, on sequences of rows:
    `sort_values(key, ascending=False)` (missing values last),
    `drop_duplicates(subset=[id])` (the first row of each id is kept) and
    `head(n)`. The sort is specified only up to the order of equal keys,
    which pandas' default sort does not fix. */
module Sorting {
  import opened Common

  /** The descending order of `sort_values(ascending=False)`: `a` may come
      before `b` when it is larger, or when `b` is missing. */
  predicate KeyGe(a: Option<int>, b: Option<int>) {
    b.None? || (a.Some? && a.value >= b.value)
  }

  /** `KeyGe` is a total preorder. */
  lemma KeyGeTotalPreorder(a: Option<int>, b: Option<int>, c: Option<int>)
    ensures KeyGe(a, a)
    ensures KeyGe(a, b) || KeyGe(b, a)
    ensures KeyGe(a, b) && KeyGe(b, c) ==> KeyGe(a, c)
  {
  }

  /** Non-increasing under `KeyGe`. */
  predicate SortedDesc<T>(xs: seq<T>, key: T -> Option<int>) {
    forall i, j :: 0 <= i < j < |xs| ==> KeyGe(key(xs[i]), key(xs[j]))
  }

  /** A sorted sequence stays sorted with a head no smaller than any of it. */
  lemma SortedCons<T>(x: T, ys: seq<T>, key: T -> Option<int>)
    requires SortedDesc(ys, key)
    requires forall j :: 0 <= j < |ys| ==> KeyGe(key(x), key(ys[j]))
    ensures SortedDesc([x] + ys, key)
  {
    var r := [x] + ys;
    forall i, j | 0 <= i < j < |r| ensures KeyGe(key(r[i]), key(r[j])) {
      if i > 0 {
        assert r[i] == ys[i - 1] && r[j] == ys[j - 1];
      }
    }
  }

  /** `x` put before the first element it is not below. */
  function InsertDesc<T>(x: T, ys: seq<T>, key: T -> Option<int>): (r: seq<T>)
    requires SortedDesc(ys, key)
    ensures SortedDesc(r, key)
    ensures multiset(r) == multiset(ys) + multiset{x}
  {
    if ys == [] then [x]
    else if KeyGe(key(x), key(ys[0])) then
      assert forall j :: 0 <= j < |ys| ==> KeyGe(key(x), key(ys[j])) by {
        forall j | 0 <= j < |ys| ensures KeyGe(key(x), key(ys[j])) {
          KeyGeTotalPreorder(key(x), key(ys[0]), key(ys[j]));
        }
      }
      SortedCons(x, ys, key);
      [x] + ys
    else
      var rest := InsertDesc(x, ys[1..], key);
      assert forall j :: 0 <= j < |rest| ==> KeyGe(key(ys[0]), key(rest[j])) by {
        forall j | 0 <= j < |rest| ensures KeyGe(key(ys[0]), key(rest[j])) {
          assert rest[j] in multiset(rest);
          if rest[j] != x {
            assert rest[j] in multiset(ys[1..]);
            var k :| 0 <= k < |ys[1..]| && ys[1..][k] == rest[j];
            assert ys[k + 1] == rest[j];
          } else {
            KeyGeTotalPreorder(key(x), key(ys[0]), key(x));
          }
        }
      }
      SortedCons(ys[0], rest, key);
      assert ys == [ys[0]] + ys[1..];
      [ys[0]] + rest
  }

  /** `sort_values(key, ascending=False)`: the rows in non-increasing key
      order, missing keys last; the same rows, each as often as before. */
  function SortDesc<T>(xs: seq<T>, key: T -> Option<int>): (r: seq<T>)
    ensures SortedDesc(r, key)
    ensures multiset(r) == multiset(xs)
  {
    if xs == [] then []
    else
      assert xs == [xs[0]] + xs[1..];
      InsertDesc(xs[0], SortDesc(xs[1..], key), key)
  }

  /** `drop_duplicates(subset=[id])` (keep="first") for rows whose ids in
      `seen` were already kept. */
  function DedupFrom<T>(xs: seq<T>, id: T -> Json, seen: set<Json>): (r: seq<T>)
    ensures forall i :: 0 <= i < |r| ==> r[i] in xs && id(r[i]) !in seen
  {
    if xs == [] then []
    else if id(xs[0]) in seen then DedupFrom(xs[1..], id, seen)
    else [xs[0]] + DedupFrom(xs[1..], id, seen + {id(xs[0])})
  }

  /** `drop_duplicates(subset=[id])`. */
  function Dedup<T>(xs: seq<T>, id: T -> Json): seq<T> {
    DedupFrom(xs, id, {})
  }

  /** Row `i` is the first row of `xs` with its id. */
  predicate FirstOfId<T>(xs: seq<T>, id: T -> Json, i: int) {
    0 <= i < |xs| && forall j :: 0 <= j < i ==> id(xs[j]) != id(xs[i])
  }

  /** A first row of the rest whose id was not seen, where the head's id was,
      is a first row of the whole. */
  lemma FirstOfIdShift<T>(xs: seq<T>, id: T -> Json, k: int, seen: set<Json>)
    requires |xs| > 0 && FirstOfId(xs[1..], id, k)
    requires id(xs[0]) in seen && id(xs[1..][k]) !in seen
    ensures FirstOfId(xs, id, k + 1) && xs[k + 1] == xs[1..][k]
  {
    forall j | 0 <= j < k + 1 ensures id(xs[j]) != id(xs[k + 1]) {
      if j > 0 {
        assert xs[j] == xs[1..][j - 1];
      }
    }
  }

  /** `drop_duplicates` keeps one row per id: no two kept rows share an id. */
  lemma {:induction false} DedupDistinct<T>(xs: seq<T>, id: T -> Json, seen: set<Json>, i: int, j: int)
    requires 0 <= i < j < |DedupFrom(xs, id, seen)|
    ensures id(DedupFrom(xs, id, seen)[i]) != id(DedupFrom(xs, id, seen)[j])
  {
    var rest := xs[1..];
    if id(xs[0]) in seen {
      DedupDistinct(rest, id, seen, i, j);
    } else {
      var s2 := seen + {id(xs[0])};
      var tail := DedupFrom(rest, id, s2);
      assert DedupFrom(xs, id, seen) == [xs[0]] + tail;
      if i > 0 {
        DedupDistinct(rest, id, s2, i - 1, j - 1);
      } else {
        assert id(tail[j - 1]) !in s2;
      }
    }
  }

  /** Every row whose id was not already seen has its id kept: `k` is the
      position of the kept row. */
  lemma {:induction false} DedupCovers<T>(xs: seq<T>, id: T -> Json, seen: set<Json>, x: T) returns (k: nat)
    requires x in xs && id(x) !in seen
    ensures k < |DedupFrom(xs, id, seen)| && id(DedupFrom(xs, id, seen)[k]) == id(x)
  {
    var rest := xs[1..];
    if id(xs[0]) in seen {
      assert x in rest;
      k := DedupCovers(rest, id, seen, x);
    } else if id(x) == id(xs[0]) {
      k := 0;
    } else {
      var s2 := seen + {id(xs[0])};
      assert x in rest;
      var k' := DedupCovers(rest, id, s2, x);
      assert DedupFrom(xs, id, seen) == [xs[0]] + DedupFrom(rest, id, s2);
      k := k' + 1;
    }
  }

  /** Each kept row is the first row of the frame with its id: `k` is its
      position in the frame. */
  lemma {:induction false} DedupKeepsFirst<T>(xs: seq<T>, id: T -> Json, seen: set<Json>, i: int) returns (k: int)
    requires 0 <= i < |DedupFrom(xs, id, seen)|
    ensures FirstOfId(xs, id, k) && xs[k] == DedupFrom(xs, id, seen)[i]
  {
    var rest := xs[1..];
    var r := DedupFrom(xs, id, seen);
    if id(xs[0]) in seen {
      var k' := DedupKeepsFirst(rest, id, seen, i);
      FirstOfIdShift(xs, id, k', seen);
      k := k' + 1;
    } else {
      var s2 := seen + {id(xs[0])};
      var tail := DedupFrom(rest, id, s2);
      assert r == [xs[0]] + tail;
      if i == 0 {
        k := 0;
      } else {
        var k' := DedupKeepsFirst(rest, id, s2, i - 1);
        assert id(tail[i - 1]) !in s2;
        FirstOfIdShift(xs, id, k', s2);
        k := k' + 1;
      }
    }
  }

  /** Dropping duplicates from a sorted frame leaves it sorted. */
  lemma {:induction false} DedupSorted<T>(xs: seq<T>, id: T -> Json, seen: set<Json>, key: T -> Option<int>)
    requires SortedDesc(xs, key)
    ensures SortedDesc(DedupFrom(xs, id, seen), key)
  {
    if xs != [] {
      var rest := xs[1..];
      assert SortedDesc(rest, key);
      if id(xs[0]) in seen {
        DedupSorted(rest, id, seen, key);
      } else {
        var s2 := seen + {id(xs[0])};
        DedupSorted(rest, id, s2, key);
        var tail := DedupFrom(rest, id, s2);
        forall j | 0 <= j < |tail| ensures KeyGe(key(xs[0]), key(tail[j])) {
          var k :| 0 <= k < |rest| && rest[k] == tail[j];
          assert xs[k + 1] == tail[j];
        }
        SortedCons(xs[0], tail, key);
      }
    }
  }

  /** pandas' `head(n)`: the first `n` rows, or all but the last `-n` rows
      when `n` is negative. */
  function Head<T>(xs: seq<T>, n: int): (r: seq<T>)
    ensures n >= 0 ==> |r| == if n < |xs| then n else |xs|
    ensures |r| <= |xs| && r == xs[..|r|]
  {
    if n >= 0 then (if n < |xs| then xs[..n] else xs)
    else if |xs| + n > 0 then xs[..|xs| + n] else []
  }

  /** The rows of a frame sorted by `key` (descending), deduplicated on `id`,
      first `limit` kept: the "slowest decisions" pipeline. */
  function TopDistinct<T>(xs: seq<T>, key: T -> Option<int>, id: T -> Json, limit: int): seq<T> {
    Head(Dedup(SortDesc(xs, key), id), limit)
  }

  /** In a sorted frame, the first row of an id carries that id's largest key. */
  lemma FirstOfIdIsMax<T>(s: seq<T>, key: T -> Option<int>, id: T -> Json, k: int, y: T)
    requires SortedDesc(s, key) && FirstOfId(s, id, k) && y in s && id(y) == id(s[k])
    ensures KeyGe(key(s[k]), key(y))
  {
    var m :| 0 <= m < |s| && s[m] == y;
    KeyGeTotalPreorder(key(y), key(y), key(y));
    if m > k {
      assert KeyGe(key(s[k]), key(s[m]));
    }
  }

  /** The deduplicated sorted frame: each kept row is the best row of its id,
      and every id of the frame keeps a row. */
  lemma DedupSortedProps<T>(xs: seq<T>, key: T -> Option<int>, id: T -> Json)
    ensures var d := Dedup(SortDesc(xs, key), id);
      && (forall i :: 0 <= i < |d| ==> d[i] in xs)
      && (forall i, j :: 0 <= i < j < |d| ==> id(d[i]) != id(d[j]))
      && SortedDesc(d, key)
      && (forall i, y :: 0 <= i < |d| && y in xs && id(y) == id(d[i]) ==> KeyGe(key(d[i]), key(y)))
      && (forall y :: y in xs ==> exists i :: 0 <= i < |d| && id(d[i]) == id(y))
  {
    var s := SortDesc(xs, key);
    var d := Dedup(s, id);
    DedupSorted(s, id, {}, key);
    assert forall x :: x in xs <==> x in s by {
      forall x ensures x in xs <==> x in s {
        assert x in xs <==> x in multiset(xs);
        assert x in s <==> x in multiset(s);
      }
    }
    forall i, j | 0 <= i < j < |d| ensures id(d[i]) != id(d[j]) {
      DedupDistinct(s, id, {}, i, j);
    }
    forall i, y | 0 <= i < |d| && y in xs && id(y) == id(d[i])
      ensures KeyGe(key(d[i]), key(y))
    {
      var k := DedupKeepsFirst(s, id, {}, i);
      FirstOfIdIsMax(s, key, id, k, y);
    }
    forall y | y in xs ensures exists i :: 0 <= i < |d| && id(d[i]) == id(y) {
      var i := DedupCovers(s, id, {}, y);
    }
  }

  /** The pipeline returns rows of the frame with pairwise distinct ids, in
      non-increasing key order, at most `limit` of them for a non-negative
      limit; the row of each id carries the largest key of that id. */
  lemma TopDistinctShape<T>(xs: seq<T>, key: T -> Option<int>, id: T -> Json, limit: int)
    ensures var r := TopDistinct(xs, key, id, limit);
      && (limit >= 0 ==> |r| <= limit)
      && (forall i :: 0 <= i < |r| ==> r[i] in xs)
      && (forall i, j :: 0 <= i < j < |r| ==> id(r[i]) != id(r[j]))
      && SortedDesc(r, key)
      && (forall i, y :: 0 <= i < |r| && y in xs && id(y) == id(r[i]) ==> KeyGe(key(r[i]), key(y)))
  {
    var d := Dedup(SortDesc(xs, key), id);
    var r := Head(d, limit);
    DedupSortedProps(xs, key, id);
    forall i | 0 <= i < |r| ensures r[i] == d[i] && r[i] in xs {
    }
    forall i, j | 0 <= i < j < |r| ensures id(r[i]) != id(r[j]) && KeyGe(key(r[i]), key(r[j])) {
      assert r[i] == d[i] && r[j] == d[j];
    }
    forall i, y | 0 <= i < |r| && y in xs && id(y) == id(r[i]) ensures KeyGe(key(r[i]), key(y)) {
      assert r[i] == d[i];
    }
  }

  /** Top-k: for a non-negative limit, an id of the frame is left out only
      when `limit` rows were returned, none with a smaller key than any row
      of the left-out id. */
  lemma TopDistinctComplete<T>(xs: seq<T>, key: T -> Option<int>, id: T -> Json, limit: int, y: T)
    requires limit >= 0 && y in xs
    requires var r := TopDistinct(xs, key, id, limit); forall i :: 0 <= i < |r| ==> id(r[i]) != id(y)
    ensures var r := TopDistinct(xs, key, id, limit);
      |r| == limit && forall i :: 0 <= i < |r| ==> KeyGe(key(r[i]), key(y))
  {
    var s := SortDesc(xs, key);
    var d := Dedup(s, id);
    var r := Head(d, limit);
    assert y in multiset(xs);
    assert y in s;
    var j := DedupCovers(s, id, {}, y);
    var k := DedupKeepsFirst(s, id, {}, j);
    FirstOfIdIsMax(s, key, id, k, y);
    DedupSorted(s, id, {}, key);
    assert r == TopDistinct(xs, key, id, limit) && d == DedupFrom(s, id, {});
    assert id(d[j]) == id(y);
    forall i | 0 <= i < |r| ensures id(d[i]) != id(y) {
      assert r[i] == d[i] && id(r[i]) != id(y);
    }
    assert j >= |r|;
    forall i | 0 <= i < |r| ensures KeyGe(key(r[i]), key(y)) {
      assert r[i] == d[i] && i < j;
      assert KeyGe(key(d[i]), key(d[j]));
      KeyGeTotalPreorder(key(d[i]), key(d[j]), key(y));
    }
  }
}
