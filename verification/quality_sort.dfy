/**
 * `qualitySort` (src/Request/Accept/AbstractValues.php, lines 114-136):
 * entries are dropped into buckets keyed by a function of their quality, the
 * buckets are visited from the highest key down, and each bucket keeps the
 * order its entries arrived in.
 *
 * The bucket key is a parameter. PHP turns a float array key into an integer
 * by truncation (`TruncKey`), which is what the code does; the comment at
 * lines 124-125 describes ordering by the quality itself (`ExactKey`).
 */
module Sorting {
  import opened Values

  /** The entries of `xs` whose key is `k`, in their original order. */
  function Bucket(key: int -> int, xs: seq<Value>, k: int): (b: seq<Value>)
    ensures forall i :: 0 <= i < |b| ==> key(b[i].quality) == k
  {
    if |xs| == 0 then []
    else (if key(xs[0].quality) == k then [xs[0]] else []) + Bucket(key, xs[1..], k)
  }

  /** The entries of `xs` whose key is below `m`, in their original order. */
  function Below(key: int -> int, xs: seq<Value>, m: int): (b: seq<Value>)
    ensures forall i :: 0 <= i < |b| ==> key(b[i].quality) < m
  {
    if |xs| == 0 then []
    else (if key(xs[0].quality) < m then [xs[0]] else []) + Below(key, xs[1..], m)
  }

  /** The highest key in a non-empty sequence. */
  function TopKey(key: int -> int, xs: seq<Value>): (m: int)
    requires |xs| > 0
    ensures forall i :: 0 <= i < |xs| ==> key(xs[i].quality) <= m
  {
    if |xs| == 1 then key(xs[0].quality)
    else
      var m := TopKey(key, xs[1..]);
      if key(xs[0].quality) > m then key(xs[0].quality) else m
  }

  /** Some entry has the top key. */
  lemma {:induction false} TopAttained(key: int -> int, xs: seq<Value>)
    requires |xs| > 0
    ensures exists t :: 0 <= t < |xs| && key(xs[t].quality) == TopKey(key, xs)
  {
    if |xs| > 1 && key(xs[0].quality) <= TopKey(key, xs[1..]) {
      TopAttained(key, xs[1..]);
      var t :| 0 <= t < |xs[1..]| && key(xs[1..][t].quality) == TopKey(key, xs[1..]);
      assert xs[1..][t] == xs[t + 1];
    } else {
      assert key(xs[0].quality) == TopKey(key, xs);
    }
  }

  /** Keys never increase along `xs`. */
  predicate SortedByKey(key: int -> int, xs: seq<Value>)
  {
    forall i, j :: 0 <= i < j < |xs| ==> key(xs[i].quality) >= key(xs[j].quality)
  }

  /** The sort: the top bucket first, then the rest sorted the same way. */
  function QualitySort(key: int -> int, xs: seq<Value>): (r: seq<Value>)
    decreases |xs|
  {
    if |xs| == 0 then []
    else
      var m := TopKey(key, xs);
      TopBelowShorter(key, xs);
      Bucket(key, xs, m) + QualitySort(key, Below(key, xs, m))
  }

  /** Below the top key there are fewer entries than in all of `xs`. */
  lemma TopBelowShorter(key: int -> int, xs: seq<Value>)
    requires |xs| > 0
    ensures |Below(key, xs, TopKey(key, xs))| < |xs|
  {
    TopAttained(key, xs);
    var t :| 0 <= t < |xs| && key(xs[t].quality) == TopKey(key, xs);
    BelowShorter(key, xs, TopKey(key, xs), t);
  }

  /** An entry at or above `m` is left out of `Below`, so the rest is shorter. */
  lemma {:induction false} BelowShorter(key: int -> int, xs: seq<Value>, m: int, t: nat)
    requires t < |xs| && key(xs[t].quality) >= m
    ensures |Below(key, xs, m)| < |xs|
  {
    if t > 0 {
      BelowShorter(key, xs[1..], m, t - 1);
    } else {
      BelowNoLonger(key, xs[1..], m);
    }
  }

  lemma {:induction false} BelowNoLonger(key: int -> int, xs: seq<Value>, m: int)
    ensures |Below(key, xs, m)| <= |xs|
  {
    if |xs| > 0 {
      BelowNoLonger(key, xs[1..], m);
    }
  }

  /** The result is a permutation of the input with keys in descending order. */
  lemma {:induction false} QualitySortSpec(key: int -> int, xs: seq<Value>)
    ensures multiset(QualitySort(key, xs)) == multiset(xs)
    ensures SortedByKey(key, QualitySort(key, xs))
    decreases |xs|
  {
    if |xs| > 0 {
      var m := TopKey(key, xs);
      var top := Bucket(key, xs, m);
      var below := Below(key, xs, m);
      TopBelowShorter(key, xs);
      QualitySortSpec(key, below);
      BucketBelowPartition(key, xs, m);
      BelowBound(key, below, m);
      SortedConcat(key, top, QualitySort(key, below), m);
    }
  }

  lemma BelowBound(key: int -> int, b: seq<Value>, m: int)
    requires forall i :: 0 <= i < |b| ==> key(b[i].quality) < m
    ensures forall x :: x in multiset(b) ==> key(x.quality) < m
  {
    forall x | x in multiset(b) ensures key(x.quality) < m {
      assert x in b;
      var i :| 0 <= i < |b| && b[i] == x;
    }
  }

  /** A bucket followed by a sorted run of lower keys is sorted. */
  lemma SortedConcat(key: int -> int, top: seq<Value>, rest: seq<Value>, m: int)
    requires forall i :: 0 <= i < |top| ==> key(top[i].quality) == m
    requires forall x :: x in multiset(rest) ==> key(x.quality) < m
    requires SortedByKey(key, rest)
    ensures SortedByKey(key, top + rest)
  {
    var r := top + rest;
    forall i, j | 0 <= i < j < |r| ensures key(r[i].quality) >= key(r[j].quality) {
      if j >= |top| {
        assert r[j] == rest[j - |top|];
        assert r[j] in multiset(rest);
        if i >= |top| {
          assert r[i] == rest[i - |top|];
        }
      }
    }
  }

  /** When `m` is the top key, its bucket and the entries below it split `xs` exactly. */
  lemma {:induction false} BucketBelowPartition(key: int -> int, xs: seq<Value>, m: int)
    requires forall i :: 0 <= i < |xs| ==> key(xs[i].quality) <= m
    ensures multiset(Bucket(key, xs, m)) + multiset(Below(key, xs, m)) == multiset(xs)
  {
    if |xs| > 0 {
      BucketBelowPartition(key, xs[1..], m);
      assert xs == [xs[0]] + xs[1..];
    }

  }

  // ---------------------------------------------------------------------------
  // Stability: every bucket keeps its entries and their order
  // ---------------------------------------------------------------------------

  lemma {:induction false} BucketAppend(key: int -> int, a: seq<Value>, b: seq<Value>, k: int)
    ensures Bucket(key, a + b, k) == Bucket(key, a, k) + Bucket(key, b, k)
  {
    if |a| == 0 {
      assert a + b == b;
    } else {
      assert (a + b)[1..] == a[1..] + b;
      BucketAppend(key, a[1..], b, k);
    }
  }

  lemma {:induction false} BucketOfBucket(key: int -> int, xs: seq<Value>, m: int, k: int)
    ensures Bucket(key, Bucket(key, xs, m), k) == if k == m then Bucket(key, xs, m) else []
  {
    if |xs| > 0 {
      BucketOfBucket(key, xs[1..], m, k);
      var head := if key(xs[0].quality) == m then [xs[0]] else [];
      BucketAppend(key, head, Bucket(key, xs[1..], m), k);
      if key(xs[0].quality) == m {
        assert head[1..] == [];
      }
    }
  }

  lemma {:induction false} BucketOfBelow(key: int -> int, xs: seq<Value>, m: int, k: int)
    ensures Bucket(key, Below(key, xs, m), k) == if k < m then Bucket(key, xs, k) else []
  {
    if |xs| > 0 {
      BucketOfBelow(key, xs[1..], m, k);
      var head := if key(xs[0].quality) < m then [xs[0]] else [];
      BucketAppend(key, head, Below(key, xs[1..], m), k);
      if key(xs[0].quality) < m {
        assert head[1..] == [];
      }
    }
  }

  /** A key above every entry has an empty bucket. */
  lemma {:induction false} BucketAboveTop(key: int -> int, xs: seq<Value>, k: int)
    requires forall i :: 0 <= i < |xs| ==> key(xs[i].quality) < k
    ensures Bucket(key, xs, k) == []
  {
    if |xs| > 0 {
      BucketAboveTop(key, xs[1..], k);
    }
  }

  /**
   * The sort is stable: for every key, the entries with that key appear in
   * the result in the same order as in the input.
   */
  lemma {:induction false} QualitySortStable(key: int -> int, xs: seq<Value>, k: int)
    ensures Bucket(key, QualitySort(key, xs), k) == Bucket(key, xs, k)
    decreases |xs|
  {
    if |xs| > 0 {
      var m := TopKey(key, xs);
      var below := Below(key, xs, m);
      TopBelowShorter(key, xs);
      QualitySortStable(key, below, k);
      BucketAppend(key, Bucket(key, xs, m), QualitySort(key, below), k);
      BucketOfBucket(key, xs, m, k);
      BucketOfBelow(key, xs, m, k);
      if k > m {
        BucketAboveTop(key, xs, k);
      }
    }
  }

  // ---------------------------------------------------------------------------
  // Ordering and stability pin the result down
  // ---------------------------------------------------------------------------

  /**
   * Two sequences that are both ordered by descending key and agree on
   * every bucket are equal: the sort is the only ordering with both
   * properties.
   */
  lemma {:induction false} SortedBucketsDetermine(key: int -> int, a: seq<Value>, b: seq<Value>)
    requires SortedByKey(key, a) && SortedByKey(key, b)
    requires forall k :: Bucket(key, a, k) == Bucket(key, b, k)
    ensures a == b
    decreases |a|
  {
    if |a| == 0 {
      if |b| > 0 {
        BucketHead(key, b);
        assert false;
      }
    } else {
      BucketHead(key, a);
      if |b| == 0 {
        assert false;
      }
      SameHead(key, a, b);
      forall k ensures Bucket(key, a[1..], k) == Bucket(key, b[1..], k) {
        BucketTail(key, a, b, k);
      }
      SortedTail(key, a);
      SortedTail(key, b);
      SortedBucketsDetermine(key, a[1..], b[1..]);
      assert a == [a[0]] + a[1..] && b == [b[0]] + b[1..];
    }
  }

  /** Sorted sequences with the same buckets start with the same entry. */
  lemma SameHead(key: int -> int, a: seq<Value>, b: seq<Value>)
    requires |a| > 0 && |b| > 0
    requires SortedByKey(key, a) && SortedByKey(key, b)
    requires forall k :: Bucket(key, a, k) == Bucket(key, b, k)
    ensures a[0] == b[0]
  {
    var ka := key(a[0].quality);
    var kb := key(b[0].quality);
    BucketHead(key, a);
    BucketHead(key, b);
    assert Bucket(key, a, ka) == Bucket(key, b, ka);
    assert Bucket(key, a, kb) == Bucket(key, b, kb);
    HeadKeyIsTop(key, b, ka);
    HeadKeyIsTop(key, a, kb);
  }

  /** In a sorted sequence no non-empty bucket lies above the first entry's key. */
  lemma HeadKeyIsTop(key: int -> int, xs: seq<Value>, k: int)
    requires |xs| > 0 && SortedByKey(key, xs)
    requires Bucket(key, xs, k) != []
    ensures k <= key(xs[0].quality)
  {
    BucketMember(key, xs, k);
    var i :| 0 <= i < |xs| && key(xs[i].quality) == k;
    if i > 0 {
      assert key(xs[0].quality) >= key(xs[i].quality);
    }
  }

  /** The bucket of the first entry's key starts with that entry. */
  lemma BucketHead(key: int -> int, xs: seq<Value>)
    requires |xs| > 0
    ensures Bucket(key, xs, key(xs[0].quality)) != []
    ensures Bucket(key, xs, key(xs[0].quality))[0] == xs[0]
  {
  }

  /** Equal buckets and equal heads give equal buckets of the tails. */
  lemma BucketTail(key: int -> int, a: seq<Value>, b: seq<Value>, k: int)
    requires |a| > 0 && |b| > 0 && a[0] == b[0]
    requires Bucket(key, a, k) == Bucket(key, b, k)
    ensures Bucket(key, a[1..], k) == Bucket(key, b[1..], k)
  {
    var head := if key(a[0].quality) == k then [a[0]] else [];
    assert Bucket(key, a, k) == head + Bucket(key, a[1..], k);
    assert Bucket(key, b, k) == head + Bucket(key, b[1..], k);
    assert (head + Bucket(key, a[1..], k))[|head|..] == Bucket(key, a[1..], k);
    assert (head + Bucket(key, b[1..], k))[|head|..] == Bucket(key, b[1..], k);
  }

  /** A non-empty bucket holds an entry of the sequence with that key. */
  lemma {:induction false} BucketMember(key: int -> int, xs: seq<Value>, k: int)
    requires Bucket(key, xs, k) != []
    ensures exists i :: 0 <= i < |xs| && key(xs[i].quality) == k
  {
    if key(xs[0].quality) != k {
      BucketMember(key, xs[1..], k);
      var i :| 0 <= i < |xs[1..]| && key(xs[1..][i].quality) == k;
      assert xs[i + 1] == xs[1..][i];
    }
  }

  lemma SortedTail(key: int -> int, xs: seq<Value>)
    requires |xs| > 0 && SortedByKey(key, xs)
    ensures SortedByKey(key, xs[1..])
  {
    forall i, j | 0 <= i < j < |xs| - 1
      ensures key(xs[1..][i].quality) >= key(xs[1..][j].quality)
    {
      assert xs[1..][i] == xs[i + 1] && xs[1..][j] == xs[j + 1];
    }
  }

  /**
   * The declarative reading of the sort: the only sequence ordered by
   * descending key whose buckets are those of the input.
   */
  lemma QualitySortUnique(key: int -> int, xs: seq<Value>, r: seq<Value>)
    requires SortedByKey(key, r)
    requires forall k :: Bucket(key, r, k) == Bucket(key, xs, k)
    ensures r == QualitySort(key, xs)
  {
    forall k ensures Bucket(key, r, k) == Bucket(key, QualitySort(key, xs), k) {
      QualitySortStable(key, xs, k);
    }
    QualitySortSpec(key, xs);
    SortedBucketsDetermine(key, r, QualitySort(key, xs));
  }

  /** Entries that all share one key are left exactly as they are. */
  lemma SortOneBucket(key: int -> int, xs: seq<Value>, k: int)
    requires forall i :: 0 <= i < |xs| ==> key(xs[i].quality) == k
    ensures QualitySort(key, xs) == xs
  {
    assert SortedByKey(key, xs);
    QualitySortUnique(key, xs, xs);
  }

  // ---------------------------------------------------------------------------
  // The two bucket keys
  // ---------------------------------------------------------------------------

  /**
   * The key the code actually uses: a float array key is stored as its
   * integer part, truncated toward zero, so a quality in thousandths keeps
   * only its whole number.
   */
  function TruncKey(q: int): (k: int)
    ensures q >= 0 ==> k * 1000 <= q < (k + 1) * 1000
    ensures q < 0 ==> (k - 1) * 1000 < q <= k * 1000
  {
    if q >= 0 then q / 1000 else -((-q) / 1000)
  }

  /** The key the comment asks for: the quality itself. */
  function ExactKey(q: int): int
  {
    q
  }

  /** Under truncation every quality below 1.0 (and above -1.0) lands in bucket 0. */
  lemma TruncKeyMergesFractions(q: int)
    requires -1000 < q < 1000
    ensures TruncKey(q) == 0
  {
  }

  /**
   * As written: qualities 0.5, 1.0, 0.8 come out as 1.0, 0.5, 0.8, because
   * 0.5 and 0.8 share the bucket 0 and keep their input order.
   */
  lemma TruncatedSortKeepsFractionOrder(a: string, b: string, c: string)
    ensures var half := Value(a, 500, map[]);
            var one := Value(b, 1000, map[]);
            var most := Value(c, 800, map[]);
            QualitySort(TruncKey, [half, one, most]) == [one, half, most]
  {
    var half := Value(a, 500, map[]);
    var one := Value(b, 1000, map[]);
    var most := Value(c, 800, map[]);
    var xs := [half, one, most];
    var r := [one, half, most];
    TruncKeyMergesFractions(500);
    TruncKeyMergesFractions(800);
    assert SortedByKey(TruncKey, r);
    forall k ensures Bucket(TruncKey, r, k) == Bucket(TruncKey, xs, k) {
      BucketOfThree(TruncKey, one, half, most, k);
      BucketOfThree(TruncKey, half, one, most, k);
    }
    QualitySortUnique(TruncKey, xs, r);
  }

  /** Corrected: with the exact key the qualities never increase along the result. */
  lemma ExactSortOrdersByQuality(xs: seq<Value>)
    ensures forall i, j :: 0 <= i < j < |QualitySort(ExactKey, xs)| ==>
              QualitySort(ExactKey, xs)[i].quality >= QualitySort(ExactKey, xs)[j].quality
  {
    var r := QualitySort(ExactKey, xs);
    QualitySortSpec(ExactKey, xs);
    forall i, j | 0 <= i < j < |r| ensures r[i].quality >= r[j].quality {
      assert ExactKey(r[i].quality) >= ExactKey(r[j].quality);
    }
  }

  /** Corrected: qualities 0.5, 1.0, 0.8 come out as 1.0, 0.8, 0.5. */
  lemma ExactSortExample(a: string, b: string, c: string)
    ensures var half := Value(a, 500, map[]);
            var one := Value(b, 1000, map[]);
            var most := Value(c, 800, map[]);
            QualitySort(ExactKey, [half, one, most]) == [one, most, half]
  {
    var half := Value(a, 500, map[]);
    var one := Value(b, 1000, map[]);
    var most := Value(c, 800, map[]);
    var xs := [half, one, most];
    var r := [one, most, half];
    assert SortedByKey(ExactKey, r);
    forall k ensures Bucket(ExactKey, r, k) == Bucket(ExactKey, xs, k) {
      BucketOfThree(ExactKey, one, most, half, k);
      BucketOfThree(ExactKey, half, one, most, k);
    }
    QualitySortUnique(ExactKey, xs, r);
  }

  function InBucket(key: int -> int, x: Value, k: int): seq<Value>
  {
    if key(x.quality) == k then [x] else []
  }

  lemma BucketOfThree(key: int -> int, x: Value, y: Value, z: Value, k: int)
    ensures Bucket(key, [x, y, z], k) == InBucket(key, x, k) + InBucket(key, y, k) + InBucket(key, z, k)
  {
    assert [x, y, z][1..] == [y, z];
    assert [y, z][1..] == [z];
    assert [z][1..] == [];
    assert Bucket(key, [z], k) == InBucket(key, z, k);
    assert Bucket(key, [y, z], k) == InBucket(key, y, k) + InBucket(key, z, k);
  }
}
