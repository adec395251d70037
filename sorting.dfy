/** insertion_sort(data, param): an in-place, stable insertion sort of a list
    of records by one integer field. The field is given here as a key function.

    The specification is functional: Insert is one pass of the inner loop,
    Sort runs it over every prefix, and the lemmas show that Sort's result is
    sorted, keeps records with equal keys in their input order (Ties), is a
    permutation of the input, and is the only sequence with those properties. */
module Sorting {

  predicate Sorted<T>(s: seq<T>, key: T -> int)
  {
    forall i, j :: 0 <= i < j < |s| ==> key(s[i]) <= key(s[j])
  }

  /** The elements of s whose key is k, in their order in s. */
  function Ties<T>(s: seq<T>, key: T -> int, k: int): seq<T>
  {
    if s == [] then []
    else Ties(s[..|s| - 1], key, k) + (if key(s[|s| - 1]) == k then [s[|s| - 1]] else [])
  }

  /** a and b hold, for every key, the same elements in the same order:
      reordering a into b never swapped two elements with equal keys. */
  ghost predicate SameTies<T>(a: seq<T>, b: seq<T>, key: T -> int)
  {
    forall k :: Ties(a, key, k) == Ties(b, key, k)
  }

  /** One pass of the inner loop: x moves left past every element whose key
      is strictly larger (`temp[param] < data[i - 1][param]`). */
  function Insert<T>(xs: seq<T>, x: T, key: T -> int): seq<T>
  {
    if xs == [] || key(xs[|xs| - 1]) <= key(x) then xs + [x]
    else Insert(xs[..|xs| - 1], x, key) + [xs[|xs| - 1]]
  }

  /** What insertion_sort leaves in the list: each element in turn inserted
      into the already sorted prefix. */
  function Sort<T>(s: seq<T>, key: T -> int): seq<T>
  {
    if s == [] then [] else Insert(Sort(s[..|s| - 1], key), s[|s| - 1], key)
  }

  // ---------------------------------------------------------------------
  // Ties

  lemma {:induction false} TiesAppend<T>(a: seq<T>, b: seq<T>, key: T -> int, k: int)
    ensures Ties(a + b, key, k) == Ties(a, key, k) + Ties(b, key, k)
  {
    if b == [] {
      assert a + b == a;
    } else {
      var b' := b[..|b| - 1];
      assert (a + b)[..|a + b| - 1] == a + b';
      TiesAppend(a, b', key, k);
    }
  }

  lemma {:induction false} TiesMembers<T>(s: seq<T>, key: T -> int, k: int)
    ensures forall y :: y in Ties(s, key, k) <==> y in s && key(y) == k
  {
    if s != [] {
      var init := s[..|s| - 1];
      TiesMembers(init, key, k);
      assert s == init + [s[|s| - 1]];
    }
  }

  /** An element occurs in s as often as it occurs among the elements of s
      that share its key. */
  lemma {:induction false} TiesMultiplicity<T>(s: seq<T>, key: T -> int, x: T)
    ensures multiset(s)[x] == multiset(Ties(s, key, key(x)))[x]
  {
    if s != [] {
      var init, last := s[..|s| - 1], s[|s| - 1];
      TiesMultiplicity(init, key, x);
      assert s == init + [last];
      assert multiset(s) == multiset(init) + multiset{last};
      var t := Ties(init, key, key(x));
      if key(last) == key(x) {
        assert Ties(s, key, key(x)) == t + [last];
        assert multiset(t + [last]) == multiset(t) + multiset{last};
      } else {
        assert Ties(s, key, key(x)) == t;
        assert last != x;
      }
    }
  }

  /** Keeping every group of equal keys intact keeps every element. */
  lemma SameTiesPermutation<T>(a: seq<T>, b: seq<T>, key: T -> int)
    requires SameTies(a, b, key)
    ensures multiset(a) == multiset(b)
  {
    forall x
      ensures multiset(a)[x] == multiset(b)[x]
    {
      TiesMultiplicity(a, key, x);
      TiesMultiplicity(b, key, x);
      assert Ties(a, key, key(x)) == Ties(b, key, key(x));
    }
  }

  // ---------------------------------------------------------------------
  // Insert

  lemma {:induction false} InsertElements<T>(xs: seq<T>, x: T, key: T -> int)
    ensures multiset(Insert(xs, x, key)) == multiset(xs) + multiset{x}
  {
    if xs != [] && key(xs[|xs| - 1]) > key(x) {
      var init := xs[..|xs| - 1];
      InsertElements(init, x, key);
      assert xs == init + [xs[|xs| - 1]];
    }
  }

  /** Inserting x keeps every group of equal keys in order and puts x last
      in its own group. */
  lemma {:induction false} InsertTies<T>(xs: seq<T>, x: T, key: T -> int, k: int)
    ensures Ties(Insert(xs, x, key), key, k) == Ties(xs, key, k) + (if key(x) == k then [x] else [])
  {
    if xs == [] || key(xs[|xs| - 1]) <= key(x) {
      assert (xs + [x])[..|xs|] == xs;
    } else {
      var init, last := xs[..|xs| - 1], xs[|xs| - 1];
      var ins := Insert(init, x, key);
      assert (ins + [last])[..|ins|] == ins;
      InsertTies(init, x, key, k);
      assert xs[..|xs| - 1] == init;
    }
  }

  lemma SortedSnoc<T>(s: seq<T>, y: T, key: T -> int)
    requires Sorted(s, key)
    requires forall z :: z in s ==> key(z) <= key(y)
    ensures Sorted(s + [y], key)
  {
    forall i, j | 0 <= i < j < |s| + 1
      ensures key((s + [y])[i]) <= key((s + [y])[j])
    {
      if j == |s| {
        assert (s + [y])[i] in s;
      }
    }
  }

  lemma {:induction false} InsertSorted<T>(xs: seq<T>, x: T, key: T -> int)
    requires Sorted(xs, key)
    ensures Sorted(Insert(xs, x, key), key)
  {
    if xs == [] || key(xs[|xs| - 1]) <= key(x) {
      forall z | z in xs ensures key(z) <= key(x) {
        var i :| 0 <= i < |xs| && xs[i] == z;
      }
      SortedSnoc(xs, x, key);
    } else {
      var init, last := xs[..|xs| - 1], xs[|xs| - 1];
      InsertSorted(init, x, key);
      InsertElements(init, x, key);
      forall z | z in Insert(init, x, key) ensures key(z) <= key(last) {
        assert z in multiset(Insert(init, x, key));
        if z != x {
          assert z in init;
          var i :| 0 <= i < |init| && init[i] == z;
        }
      }
      SortedSnoc(Insert(init, x, key), last, key);
    }
  }

  // ---------------------------------------------------------------------
  // Sort

  /** insertion_sort leaves the list non-decreasing in the key. */
  lemma {:induction false} SortSorted<T>(s: seq<T>, key: T -> int)
    ensures Sorted(Sort(s, key), key)
  {
    if s != [] {
      SortSorted(s[..|s| - 1], key);
      InsertSorted(Sort(s[..|s| - 1], key), s[|s| - 1], key);
    }
  }

  /** insertion_sort is stable: the strict `<` never moves an element past
      one with an equal key. */
  lemma {:induction false} SortTies<T>(s: seq<T>, key: T -> int)
    ensures SameTies(Sort(s, key), s, key)
  {
    if s != [] {
      var init := s[..|s| - 1];
      SortTies(init, key);
      forall k ensures Ties(Sort(s, key), key, k) == Ties(s, key, k) {
        InsertTies(Sort(init, key), s[|s| - 1], key, k);
      }
    }
  }

  /** insertion_sort only rearranges the list. */
  lemma SortPermutes<T>(s: seq<T>, key: T -> int)
    ensures multiset(Sort(s, key)) == multiset(s)
    ensures |Sort(s, key)| == |s|
  {
    SortTies(s, key);
    SameTiesPermutation(Sort(s, key), s, key);
    assert |multiset(Sort(s, key))| == |multiset(s)|;
  }

  lemma LastIsLargest<T>(s: seq<T>, x: T, key: T -> int)
    requires Sorted(s, key) && x in s
    ensures key(x) <= key(s[|s| - 1])
  {
    var i :| 0 <= i < |s| && s[i] == x;
  }

  /** Two sorted sequences with the same ties end in elements with the same key. */
  lemma LastKeysAgree<T>(a: seq<T>, b: seq<T>, key: T -> int)
    requires Sorted(a, key) && Sorted(b, key) && SameTies(a, b, key)
    requires a != [] && b != []
    ensures key(a[|a| - 1]) == key(b[|b| - 1])
  {
    var la, lb := a[|a| - 1], b[|b| - 1];
    TiesMembers(a, key, key(lb));
    TiesMembers(b, key, key(lb));
    assert Ties(a, key, key(lb)) == Ties(b, key, key(lb));
    LastIsLargest(a, lb, key);
    TiesMembers(a, key, key(la));
    TiesMembers(b, key, key(la));
    assert Ties(a, key, key(la)) == Ties(b, key, key(la));
    LastIsLargest(b, la, key);
  }

  /** A sorted sequence is fixed by the groups of equal keys it holds: two
      sorted sequences with the same ties are equal. */
  lemma {:induction false} SortedUnique<T>(a: seq<T>, b: seq<T>, key: T -> int)
    requires Sorted(a, key) && Sorted(b, key)
    requires SameTies(a, b, key)
    ensures a == b
    decreases |a|
  {
    SameTiesPermutation(a, b, key);
    assert |a| == |multiset(a)| == |multiset(b)| == |b|;
    if a != [] {
      var ia, la := a[..|a| - 1], a[|a| - 1];
      var ib, lb := b[..|b| - 1], b[|b| - 1];
      LastKeysAgree(a, b, key);
      // la and lb both end the group of their common key
      var g := key(la);
      assert Ties(a, key, g) == Ties(ia, key, g) + [la];
      assert Ties(b, key, g) == Ties(ib, key, g) + [lb];
      assert Ties(a, key, g) == Ties(b, key, g);
      assert la == Ties(a, key, g)[|Ties(a, key, g)| - 1] == lb;
      forall k ensures Ties(ia, key, k) == Ties(ib, key, k) {
        var x := if key(la) == k then [la] else [];
        assert Ties(a, key, k) == Ties(ia, key, k) + x;
        assert Ties(b, key, k) == Ties(ib, key, k) + x;
        assert Ties(a, key, k) == Ties(b, key, k);
        assert Ties(ia, key, k) == (Ties(ia, key, k) + x)[..|Ties(ia, key, k)|];
        assert Ties(ib, key, k) == (Ties(ib, key, k) + x)[..|Ties(ib, key, k)|];
      }
      assert Sorted(ia, key) && Sorted(ib, key);
      SortedUnique(ia, ib, key);
      assert a == ia + [la] && b == ib + [lb];
    }
  }

  /** Sort(s) is exactly the sorted rearrangement of s that keeps equal keys
      in input order. */
  lemma SortCharacterization<T>(s: seq<T>, r: seq<T>, key: T -> int)
    ensures r == Sort(s, key) <==> Sorted(r, key) && SameTies(r, s, key)
  {
    SortSorted(s, key);
    SortTies(s, key);
    if Sorted(r, key) && SameTies(r, s, key) {
      SortedUnique(r, Sort(s, key), key);
    }
  }

  /** The three facts the in-place algorithm promises, gathered. */
  lemma SortFacts<T>(s: seq<T>, key: T -> int)
    ensures Sorted(Sort(s, key), key) && SameTies(Sort(s, key), s, key)
    ensures multiset(Sort(s, key)) == multiset(s)
  {
    SortSorted(s, key);
    SortTies(s, key);
    SortPermutes(s, key);
  }

  /** Sorting an already sorted list changes nothing. */
  lemma SortOfSorted<T>(s: seq<T>, key: T -> int)
    requires Sorted(s, key)
    ensures Sort(s, key) == s
  {
    SortCharacterization(s, s, key);
  }

  // ---------------------------------------------------------------------
  // The in-place algorithm

  /** Inserting x into p puts it right after the last element whose key is
      not above key(x): all later elements have larger keys. */
  lemma {:induction false} InsertAt<T>(p: seq<T>, j: int, x: T, key: T -> int)
    requires 0 <= j <= |p|
    requires j == 0 || key(p[j - 1]) <= key(x)
    requires forall k :: j <= k < |p| ==> key(x) < key(p[k])
    ensures Insert(p, x, key) == p[..j] + [x] + p[j..]
    decreases |p|
  {
    if j == |p| {
      assert p[..j] == p && p[j..] == [];
    } else {
      var init, last := p[..|p| - 1], p[|p| - 1];
      assert init[..j] == p[..j];
      InsertAt(init, j, x, key);
      assert init[j..] + [last] == p[j..];
    }
  }

  lemma SortPrefixStep<T>(s: seq<T>, i: int, key: T -> int)
    requires 0 <= i < |s|
    ensures Sort(s[..i + 1], key) == Insert(Sort(s[..i], key), s[i], key)
  {
    assert s[..i + 1][..i] == s[..i];
  }

  /** The array after the shifts and the final write, read as a sequence. */
  lemma ShiftedPrefix<T>(q: seq<T>, p: seq<T>, i: int, j: int, x: T)
    requires 0 <= j <= i < |q| && |p| == i
    requires forall k :: 0 <= k < j ==> q[k] == p[k]
    requires q[j] == x
    requires forall k :: j < k <= i ==> q[k] == p[k - 1]
    ensures q[..i + 1] == p[..j] + [x] + p[j..]
  {
    var r := p[..j] + [x] + p[j..];
    forall k | 0 <= k <= i ensures q[k] == r[k] {
      if k > j {
        assert r[k] == p[k - 1];
      }
    }
  }

  /** The body of insertion_sort's outer loop: data[i] is taken out and the
      larger elements before it shift one place right until it fits. */
  method ShiftIntoPlace<T>(a: array<T>, i: int, key: T -> int)
    requires 0 < i < a.Length
    modifies a
    ensures a[..i + 1] == Insert(old(a[..i]), old(a[i]), key)
    ensures a[i + 1..] == old(a[i + 1..])
  {
    ghost var p := a[..i];
    var temp := a[i];
    var j := i;
    while j - 1 >= 0 && key(temp) < key(a[j - 1])
      invariant 0 <= j <= i
      invariant forall k :: 0 <= k < j ==> a[k] == p[k]
      invariant forall k :: j < k <= i ==> a[k] == p[k - 1]
      invariant forall k :: i < k < a.Length ==> a[k] == old(a[k])
      invariant forall k :: j <= k < i ==> key(temp) < key(p[k])
    {
      a[j] := a[j - 1];
      j := j - 1;
    }
    a[j] := temp;
    InsertAt(p, j, temp, key);
    ShiftedPrefix(a[..], p, i, j, temp);
    assert a[i + 1..] == old(a[i + 1..]);
  }

  /** insertion_sort: each element in turn is shifted into the sorted prefix
      before it. */
  method InsertionSort<T>(a: array<T>, key: T -> int)
    modifies a
    ensures a[..] == Sort(old(a[..]), key)
    ensures Sorted(a[..], key) && SameTies(a[..], old(a[..]), key)
    ensures multiset(a[..]) == multiset(old(a[..]))
  {
    ghost var s := a[..];
    if a.Length > 0 {
      assert s[..1] == [] + [s[0]];
      for i := 1 to a.Length
        invariant a[..i] == Sort(s[..i], key)
        invariant a[i..] == s[i..]
      {
        assert a[i] == s[i];
        ShiftIntoPlace(a, i, key);
        SortPrefixStep(s, i, key);
        assert a[i + 1..] == s[i + 1..];
      }
      assert s[..a.Length] == s;
    }
    SortFacts(s, key);
  }
}
