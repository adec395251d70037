/** bucket_sort(data, param) and max_value_in_data(data, param).

    n = len(data) buckets; a record with key v goes to bucket
    int(v / (max / n)), and index n (only the maximum key reaches it) goes to
    the last bucket instead; each bucket is insertion-sorted and the buckets
    are joined in order. The index is computed exactly, as floor(v * n / max).

    The specification BucketSorted follows the same steps on values; the
    lemmas show it is sorted, keeps equal keys in input order, and is in fact
    the same list as insertion-sorting the whole input. */
module Buckets {
  import opened Sorting

  /** The largest key of a non-empty sequence (max() over the keys). */
  function MaxKey<T>(s: seq<T>, key: T -> int): (m: int)
    requires |s| > 0
    ensures exists i :: 0 <= i < |s| && key(s[i]) == m
    ensures forall i :: 0 <= i < |s| ==> key(s[i]) <= m
  {
    if |s| == 1 then key(s[0])
    else
      var init := s[..|s| - 1];
      var m' := MaxKey(init, key);
      assert forall i :: 0 <= i < |init| ==> init[i] == s[i];
      if key(s[|s| - 1]) > m' then key(s[|s| - 1]) else m'
  }

  /** max_value_in_data: collects the keys and takes their maximum, here as a
      running maximum. max() of an empty list raises, hence the requires. */
  method MaxValueInData<T>(data: seq<T>, key: T -> int) returns (m: int)
    requires |data| > 0
    ensures m == MaxKey(data, key)
  {
    m := key(data[0]);
    for i := 1 to |data|
      invariant m == MaxKey(data[..i], key)
    {
      assert data[..i + 1][..i] == data[..i];
      if key(data[i]) > m {
        m := key(data[i]);
      }
    }
    assert data[..|data|] == data;
  }

  predicate KeysIn<T>(s: seq<T>, key: T -> int, m: int)
  {
    forall i :: 0 <= i < |s| ==> 0 <= key(s[i]) <= m
  }

  // ---------------------------------------------------------------------
  // The bucket index

  /** `int(v / (m / n))` for 0 <= v, with exact arithmetic: floor(v * n / m). */
  function RawIndex(v: int, n: int, m: int): int
    requires 0 < m
  {
    (v * n) / m
  }

  /** The bucket a key goes to: the raw index, except that index n goes to
      the last bucket. */
  function BucketIndex(v: int, n: int, m: int): int
    requires 0 < m
  {
    var number := RawIndex(v, n, m);
    if number != n then number else n - 1
  }

  lemma MulMonotone(a: int, b: int, c: int)
    requires a <= b && 0 <= c
    ensures a * c <= b * c
  {
  }

  lemma DivMonotone(a: int, b: int, m: int)
    requires 0 < m && a <= b
    ensures a / m <= b / m
  {
    var qa, qb := a / m, b / m;
    assert a == m * qa + a % m && 0 <= a % m < m;
    assert b == m * qb + b % m && 0 <= b % m < m;
    if qa > qb {
      MulMonotone(qb + 1, qa, m);
    }
  }

  lemma MulDivCancel(n: int, m: int)
    requires 0 < m
    ensures (m * n) / m == n
  {
    var q, r := (m * n) / m, (m * n) % m;
    assert m * n == m * q + r && 0 <= r < m;
    assert m * (n - q) == r;
    if n - q >= 1 {
      MulMonotone(1, n - q, m);
    } else if n - q <= -1 {
      MulMonotone(n - q, -1, m);
    }
  }

  /** The raw index of a key in 0..m lies in 0..n, and reaches n only for
      the maximum key m. */
  lemma RawIndexRange(v: int, n: int, m: int)
    requires 0 < n && 0 < m && 0 <= v <= m
    ensures 0 <= RawIndex(v, n, m) <= n
    ensures RawIndex(v, n, m) == n <==> v == m
  {
    var q := (v * n) / m;
    MulMonotone(0, v, n);
    MulMonotone(v, m, n);
    DivMonotone(0, v * n, m);
    DivMonotone(v * n, m * n, m);
    MulDivCancel(n, m);
    if v < m {
      MulMonotone(v, m - 1, n);
      assert v * n < m * n;
      assert q * m <= v * n;
      if q >= n {
        MulMonotone(n, q, m);
      }
    }
  }

  /** Every key in 0..m gets a bucket in 0..n - 1, and the maximum key goes
      to the last one. */
  lemma BucketIndexRange(v: int, n: int, m: int)
    requires 0 < n && 0 < m && 0 <= v <= m
    ensures 0 <= BucketIndex(v, n, m) < n
    ensures v == m ==> BucketIndex(v, n, m) == n - 1
  {
    RawIndexRange(v, n, m);
  }

  /** A larger key never goes to an earlier bucket. */
  lemma BucketIndexMonotone(v1: int, v2: int, n: int, m: int)
    requires 0 < n && 0 < m && 0 <= v1 <= v2 <= m
    ensures BucketIndex(v1, n, m) <= BucketIndex(v2, n, m)
  {
    RawIndexRange(v1, n, m);
    RawIndexRange(v2, n, m);
    assert v1 * n <= v2 * n;
    DivMonotone(v1 * n, v2 * n, m);
  }

  // ---------------------------------------------------------------------
  // Buckets and their concatenation

  /** The records of s that go to bucket j, in the order of s. */
  function Bucket<T>(s: seq<T>, key: T -> int, n: int, m: int, j: int): seq<T>
    requires 0 < m && KeysIn(s, key, m)
  {
    if s == [] then []
    else
      var init := s[..|s| - 1];
      assert KeysIn(init, key, m) by {
        assert forall i :: 0 <= i < |init| ==> init[i] == s[i];
      }
      Bucket(init, key, n, m, j) + (if BucketIndex(key(s[|s| - 1]), n, m) == j then [s[|s| - 1]] else [])
  }

  /** The buckets, each insertion-sorted. */
  function SortedBuckets<T>(s: seq<T>, key: T -> int, n: nat, m: int): (bs: seq<seq<T>>)
    requires 0 < m && KeysIn(s, key, m)
    ensures |bs| == n
  {
    seq(n, j requires 0 <= j < n => Sort(Bucket(s, key, n, m, j), key))
  }

  /** The buckets joined in index order (`result += new_data[x]`). */
  function Concat<T>(bs: seq<seq<T>>): seq<T>
  {
    if bs == [] then [] else Concat(bs[..|bs| - 1]) + bs[|bs| - 1]
  }

  /** What bucket_sort's preconditions come to: a non-empty list (max() of an
      empty list raises), keys that are not negative, and a positive maximum
      (the bucket width max / n divides). */
  predicate BucketSortable<T>(data: seq<T>, key: T -> int)
  {
    && |data| > 0
    && (forall i :: 0 <= i < |data| ==> 0 <= key(data[i]))
    && (exists i :: 0 <= i < |data| && 0 < key(data[i]))
  }

  /** The list bucket_sort returns. */
  function BucketSorted<T>(data: seq<T>, key: T -> int): seq<T>
    requires BucketSortable(data, key)
  {
    var m := MaxKey(data, key);
    Concat(SortedBuckets(data, key, |data|, m))
  }

  // ---------------------------------------------------------------------
  // Properties

  lemma {:induction false} BucketMembers<T>(s: seq<T>, key: T -> int, n: int, m: int, j: int)
    requires 0 < m && KeysIn(s, key, m)
    ensures forall x :: x in Bucket(s, key, n, m, j) ==> 0 <= key(x) <= m && BucketIndex(key(x), n, m) == j
  {
    if s != [] {
      var init := s[..|s| - 1];
      assert KeysIn(init, key, m) by {
        assert forall i :: 0 <= i < |init| ==> init[i] == s[i];
      }
      BucketMembers(init, key, n, m, j);
      assert s == init + [s[|s| - 1]];
    }
  }

  lemma TiesOfSingleton<T>(x: T, key: T -> int, k: int)
    ensures Ties([x], key, k) == if key(x) == k then [x] else []
  {
    assert [x][..0] == [];
  }

  /** Bucket j holds, for each key that maps to j, all records with that key
      in input order, and nothing of any other key. */
  lemma {:induction false} BucketTies<T>(s: seq<T>, key: T -> int, n: int, m: int, j: int, k: int)
    requires 0 < n && 0 < m && KeysIn(s, key, m)
    ensures Ties(Bucket(s, key, n, m, j), key, k) ==
      if 0 <= k <= m && BucketIndex(k, n, m) == j then Ties(s, key, k) else []
  {
    if s != [] {
      var init, x := s[..|s| - 1], s[|s| - 1];
      assert KeysIn(init, key, m) by {
        assert forall i :: 0 <= i < |init| ==> init[i] == s[i];
      }
      BucketTies(init, key, n, m, j, k);
      var tail := if BucketIndex(key(x), n, m) == j then [x] else [];
      TiesAppend(Bucket(init, key, n, m, j), tail, key, k);
      TiesOfSingleton(x, key, k);
      assert Ties([], key, k) == [];
    }
  }

  /** A key outside 0..m has no records. */
  lemma TiesOutOfRange<T>(s: seq<T>, key: T -> int, m: int, k: int)
    requires KeysIn(s, key, m) && !(0 <= k <= m)
    ensures Ties(s, key, k) == []
  {
    TiesMembers(s, key, k);
  }

  /** The first c sorted buckets, joined, hold exactly the records whose key
      maps below c, with equal keys in input order. */
  lemma {:induction false} ConcatPrefixTies<T>(s: seq<T>, key: T -> int, n: nat, m: int, c: nat, k: int)
    requires 0 < n && 0 < m && KeysIn(s, key, m) && c <= n
    ensures Ties(Concat(SortedBuckets(s, key, n, m)[..c]), key, k) ==
      if 0 <= k <= m && BucketIndex(k, n, m) < c then Ties(s, key, k) else []
  {
    var bs := SortedBuckets(s, key, n, m);
    if 0 <= k <= m {
      BucketIndexRange(k, n, m);
    }
    if c == 0 {
      assert bs[..0] == [];
    } else {
      var bucket := Bucket(s, key, n, m, c - 1);
      var a, b := Concat(bs[..c - 1]), bs[c - 1];
      assert b == Sort(bucket, key);
      assert bs[..c][..c - 1] == bs[..c - 1];
      assert Concat(bs[..c]) == a + b;
      ConcatPrefixTies(s, key, n, m, c - 1, k);
      TiesAppend(a, b, key, k);
      SortTies(bucket, key);
      BucketTies(s, key, n, m, c - 1, k);
      var t := Ties(s, key, k);
      var below := 0 <= k <= m && BucketIndex(k, n, m) < c - 1;
      var here := 0 <= k <= m && BucketIndex(k, n, m) == c - 1;
      assert Ties(a, key, k) == if below then t else [];
      assert Ties(b, key, k) == if here then t else [];
      if below {
        assert Ties(a + b, key, k) == t + [];
      } else if here {
        assert Ties(a + b, key, k) == [] + t;
      } else {
        assert Ties(a + b, key, k) == [] + [];
      }
    }
  }

  lemma SortedAppend<T>(a: seq<T>, b: seq<T>, key: T -> int)
    requires Sorted(a, key) && Sorted(b, key)
    requires forall x, y :: x in a && y in b ==> key(x) <= key(y)
    ensures Sorted(a + b, key)
  {
    forall i, j | 0 <= i < j < |a + b|
      ensures key((a + b)[i]) <= key((a + b)[j])
    {
      if i < |a| && j >= |a| {
        assert (a + b)[i] in a && (a + b)[j] in b;
      }
    }
  }

  /** Sorting bucket j keeps exactly its records, so every one of them still
      maps to j. */
  lemma SortedBucketMembers<T>(s: seq<T>, key: T -> int, n: nat, m: int, j: int)
    requires 0 < m && KeysIn(s, key, m)
    ensures forall y :: y in Sort(Bucket(s, key, n, m, j), key) ==>
      0 <= key(y) <= m && BucketIndex(key(y), n, m) == j
  {
    var bucket := Bucket(s, key, n, m, j);
    SortPermutes(bucket, key);
    BucketMembers(s, key, n, m, j);
    forall y | y in Sort(bucket, key) ensures 0 <= key(y) <= m && BucketIndex(key(y), n, m) == j {
      assert y in multiset(Sort(bucket, key));
    }
  }

  /** Records of earlier buckets have keys no larger than those of a later
      bucket. */
  lemma EarlierBucketsBelow<T>(a: seq<T>, b: seq<T>, key: T -> int, n: nat, m: int, c: nat)
    requires 0 < n && 0 < m
    requires forall x :: x in a ==> 0 <= key(x) <= m && BucketIndex(key(x), n, m) < c
    requires forall y :: y in b ==> 0 <= key(y) <= m && BucketIndex(key(y), n, m) == c
    ensures forall x, y :: x in a && y in b ==> key(x) <= key(y)
  {
    forall x, y | x in a && y in b
      ensures key(x) <= key(y)
    {
      if key(y) < key(x) {
        BucketIndexMonotone(key(y), key(x), n, m);
      }
    }
  }

  /** The first c sorted buckets, joined, hold only records whose key maps
      below c. */
  lemma {:induction false} ConcatPrefixMembers<T>(s: seq<T>, key: T -> int, n: nat, m: int, c: nat)
    requires 0 < n && 0 < m && KeysIn(s, key, m) && c <= n
    ensures forall x :: x in Concat(SortedBuckets(s, key, n, m)[..c]) ==>
      0 <= key(x) <= m && BucketIndex(key(x), n, m) < c
  {
    var bs := SortedBuckets(s, key, n, m);
    if c == 0 {
      assert bs[..0] == [];
    } else {
      assert bs[..c][..c - 1] == bs[..c - 1];
      var a, b := Concat(bs[..c - 1]), Sort(Bucket(s, key, n, m, c - 1), key);
      assert Concat(bs[..c]) == a + b;
      ConcatPrefixMembers(s, key, n, m, c - 1);
      SortedBucketMembers(s, key, n, m, c - 1);
    }
  }

  /** The first c sorted buckets, joined, are sorted. */
  lemma {:induction false} ConcatPrefixSorted<T>(s: seq<T>, key: T -> int, n: nat, m: int, c: nat)
    requires 0 < n && 0 < m && KeysIn(s, key, m) && c <= n
    ensures Sorted(Concat(SortedBuckets(s, key, n, m)[..c]), key)
  {
    var bs := SortedBuckets(s, key, n, m);
    if c == 0 {
      assert bs[..0] == [];
    } else {
      assert bs[..c][..c - 1] == bs[..c - 1];
      var bucket := Bucket(s, key, n, m, c - 1);
      var a, b := Concat(bs[..c - 1]), Sort(bucket, key);
      assert Concat(bs[..c]) == a + b;
      ConcatPrefixSorted(s, key, n, m, c - 1);
      ConcatPrefixMembers(s, key, n, m, c - 1);
      SortedBucketMembers(s, key, n, m, c - 1);
      EarlierBucketsBelow(a, b, key, n, m, c - 1);
      SortSorted(bucket, key);
      SortedAppend(a, b, key);
    }
  }

  /** The list bucket_sort returns is sorted by the key. */
  lemma BucketSortedIsSorted<T>(data: seq<T>, key: T -> int)
    requires BucketSortable(data, key)
    ensures Sorted(BucketSorted(data, key), key)
  {
    var m := MaxKey(data, key);
    var bs := SortedBuckets(data, key, |data|, m);
    assert bs[..|data|] == bs;
    ConcatPrefixSorted(data, key, |data|, m, |data|);
  }

  /** bucket_sort is stable: records with equal keys keep their input order. */
  lemma BucketSortedTies<T>(data: seq<T>, key: T -> int)
    requires BucketSortable(data, key)
    ensures SameTies(BucketSorted(data, key), data, key)
  {
    var n, m := |data|, MaxKey(data, key);
    var bs := SortedBuckets(data, key, n, m);
    assert bs[..n] == bs;
    forall k ensures Ties(BucketSorted(data, key), key, k) == Ties(data, key, k) {
      ConcatPrefixTies(data, key, n, m, n, k);
      if 0 <= k <= m {
        BucketIndexRange(k, n, m);
      } else {
        TiesOutOfRange(data, key, m, k);
      }
    }
  }

  /** bucket_sort returns the same list as insertion_sort run over the whole
      input: sorted, stable and a permutation of it. */
  lemma BucketSortedIsSort<T>(data: seq<T>, key: T -> int)
    requires BucketSortable(data, key)
    ensures BucketSorted(data, key) == Sort(data, key)
    ensures multiset(BucketSorted(data, key)) == multiset(data)
  {
    BucketSortedIsSorted(data, key);
    BucketSortedTies(data, key);
    SortCharacterization(data, BucketSorted(data, key), key);
    SortPermutes(data, key);
  }

  lemma BucketSortedFacts<T>(data: seq<T>, key: T -> int)
    requires BucketSortable(data, key)
    ensures BucketSorted(data, key) == Sort(data, key)
    ensures Sorted(BucketSorted(data, key), key) && SameTies(BucketSorted(data, key), data, key)
    ensures multiset(BucketSorted(data, key)) == multiset(data)
  {
    BucketSortedIsSorted(data, key);
    BucketSortedTies(data, key);
    BucketSortedIsSort(data, key);
  }

  // ---------------------------------------------------------------------
  // The algorithm

  /** The first half of bucket_sort: n empty buckets, then each record
      appended to the bucket of its key, index n going to the last bucket. */
  method Distribute<T>(data: seq<T>, key: T -> int, tmp: int) returns (newData: seq<seq<T>>)
    requires 0 < tmp && KeysIn(data, key, tmp)
    ensures |newData| == |data|
    ensures forall j :: 0 <= j < |data| ==> newData[j] == Bucket(data, key, |data|, tmp, j)
  {
    var n := |data|;
    newData := [];
    for z := 0 to n
      invariant |newData| == z && forall j :: 0 <= j < z ==> newData[j] == []
    {
      newData := newData + [[]];
    }
    for i := 0 to n
      invariant |newData| == n
      invariant KeysIn(data[..i], key, tmp)
      invariant forall j :: 0 <= j < n ==> newData[j] == Bucket(data[..i], key, n, tmp, j)
    {
      var number := RawIndex(key(data[i]), n, tmp);
      RawIndexRange(key(data[i]), n, tmp);
      assert data[..i + 1][..i] == data[..i];
      assert KeysIn(data[..i + 1], key, tmp);
      if number != n {
        newData := newData[number := newData[number] + [data[i]]];
      } else {
        newData := newData[n - 1 := newData[n - 1] + [data[i]]];
      }
    }
    assert data[..n] == data;
  }

  /** The second half: each bucket insertion-sorted in place. */
  method SortEachBucket<T>(buckets: seq<seq<T>>, key: T -> int) returns (newData: seq<seq<T>>)
    ensures |newData| == |buckets|
    ensures forall j :: 0 <= j < |buckets| ==> newData[j] == Sort(buckets[j], key)
  {
    newData := buckets;
    for z := 0 to |buckets|
      invariant |newData| == |buckets|
      invariant forall j :: 0 <= j < z ==> newData[j] == Sort(buckets[j], key)
      invariant forall j :: z <= j < |buckets| ==> newData[j] == buckets[j]
    {
      var b := newData[z];
      var bucket := new T[|b|](k requires 0 <= k < |b| => b[k]);
      assert bucket[..] == b;
      InsertionSort(bucket, key);
      newData := newData[z := bucket[..]];
    }
  }

  /** The distributed and sorted lists are the sorted buckets. */
  lemma DistributedBuckets<T>(data: seq<T>, key: T -> int, tmp: int, buckets: seq<seq<T>>, newData: seq<seq<T>>)
    requires 0 < tmp && KeysIn(data, key, tmp)
    requires |buckets| == |data|
    requires forall j :: 0 <= j < |data| ==> buckets[j] == Bucket(data, key, |data|, tmp, j)
    requires |newData| == |buckets|
    requires forall j :: 0 <= j < |buckets| ==> newData[j] == Sort(buckets[j], key)
    ensures newData == SortedBuckets(data, key, |data|, tmp)
  {
    var bs := SortedBuckets(data, key, |data|, tmp);
    assert forall j :: 0 <= j < |bs| ==> bs[j] == Sort(Bucket(data, key, |data|, tmp, j), key);
  }

  /** The last loop: the buckets joined in index order. */
  method JoinBuckets<T>(newData: seq<seq<T>>) returns (result: seq<T>)
    ensures result == Concat(newData)
  {
    result := [];
    for x := 0 to |newData|
      invariant result == Concat(newData[..x])
    {
      assert newData[..x + 1][..x] == newData[..x];
      result := result + newData[x];
    }
    assert newData[..|newData|] == newData;
  }

  /** bucket_sort: builds new lists and leaves `data` as it was. */
  method BucketSort<T>(data: seq<T>, key: T -> int) returns (result: seq<T>)
    requires |data| > 0
    requires forall i :: 0 <= i < |data| ==> 0 <= key(data[i])
    requires exists i :: 0 <= i < |data| && 0 < key(data[i])
    ensures result == BucketSorted(data, key)
    ensures result == Sort(data, key)
    ensures Sorted(result, key) && SameTies(result, data, key)
    ensures multiset(result) == multiset(data)
  {
    var tmp := MaxValueInData(data, key);
    assert KeysIn(data, key, tmp);
    var buckets := Distribute(data, key, tmp);
    var newData := SortEachBucket(buckets, key);
    DistributedBuckets(data, key, tmp, buckets, newData);
    result := JoinBuckets(newData);
    BucketSortedFacts(data, key);
  }
}
