/**
  The in-place `List<T>.Sort()` that the engine applies to its island and
  bridge lists, for element types whose `CompareTo` is a lexicographic
  comparison of an integer pair. The sort is modelled as an insertion sort on
  values; when the keys of the list are pairwise distinct (which the engine
  keeps true) every correct sort yields the same list (`StrictlySortedUnique`).
*/
module Sorting {

  /** The pair compared by `CompareTo`. */
  type Key = (int, int)

  predicate KeyLt(a: Key, b: Key) {
    a.0 < b.0 || (a.0 == b.0 && a.1 < b.1)
  }

  predicate KeyLe(a: Key, b: Key) {
    a.0 < b.0 || (a.0 == b.0 && a.1 <= b.1)
  }

  ghost predicate Sorted<T>(s: seq<T>, key: T -> Key) {
    forall i, j :: 0 <= i < j < |s| ==> KeyLe(key(s[i]), key(s[j]))
  }

  ghost predicate StrictlySorted<T>(s: seq<T>, key: T -> Key) {
    forall i, j :: 0 <= i < j < |s| ==> KeyLt(key(s[i]), key(s[j]))
  }

  ghost predicate DistinctKeys<T>(s: seq<T>, key: T -> Key) {
    forall i, j :: 0 <= i < j < |s| ==> key(s[i]) != key(s[j])
  }

  /** The position at which `Insert` places `x`. */
  function InsertPos<T>(s: seq<T>, x: T, key: T -> Key): (p: nat)
    ensures p <= |s|
    ensures forall q :: 0 <= q < p ==> KeyLt(key(s[q]), key(x))
    ensures p < |s| ==> !KeyLt(key(s[p]), key(x))
  {
    if s == [] then 0
    else if KeyLt(key(s[0]), key(x)) then 1 + InsertPos(s[1..], x, key)
    else 0
  }

  /** Puts `x` in front of the first element whose key is not below key(x). */
  function Insert<T>(s: seq<T>, x: T, key: T -> Key): (r: seq<T>)
    ensures |r| == |s| + 1
    ensures multiset(r) == multiset(s) + multiset{x}
  {
    var p := InsertPos(s, x, key);
    assert s == s[..p] + s[p..];
    s[..p] + [x] + s[p..]
  }

  /** `InsertPos` is the first position whose key is not below key(x). */
  lemma {:induction false} InsertPosUnique<T>(s: seq<T>, x: T, key: T -> Key, p: nat)
    requires p <= |s|
    requires forall q :: 0 <= q < p ==> KeyLt(key(s[q]), key(x))
    requires p < |s| ==> !KeyLt(key(s[p]), key(x))
    ensures InsertPos(s, x, key) == p
  {
    if s != [] && p > 0 {
      assert forall q :: 0 <= q < p - 1 ==> s[1..][q] == s[q + 1];
      InsertPosUnique(s[1..], x, key, p - 1);
    }
  }

  /** All keys before the insertion point are smaller, all keys after it are not. */
  lemma InsertPosBounds<T>(s: seq<T>, x: T, key: T -> Key)
    requires Sorted(s, key)
    ensures forall q :: InsertPos(s, x, key) <= q < |s| ==> KeyLe(key(x), key(s[q]))
  {
    var p := InsertPos(s, x, key);
    forall q | p <= q < |s| ensures KeyLe(key(x), key(s[q])) {
      assert KeyLe(key(s[p]), key(s[q]));
    }
  }

  lemma {:induction false} InsertSorted<T>(s: seq<T>, x: T, key: T -> Key)
    requires Sorted(s, key)
    ensures Sorted(Insert(s, x, key), key)
  {
    InsertPosBounds(s, x, key);
  }

  lemma {:induction false} InsertStrictlySorted<T>(s: seq<T>, x: T, key: T -> Key)
    requires StrictlySorted(s, key)
    requires forall q :: 0 <= q < |s| ==> key(s[q]) != key(x)
    ensures StrictlySorted(Insert(s, x, key), key)
  {
    InsertPosBounds(s, x, key);
  }

  /** Inserting an element above every key appends it. */
  lemma InsertAtEnd<T>(s: seq<T>, x: T, key: T -> Key)
    requires forall q :: 0 <= q < |s| ==> KeyLt(key(s[q]), key(x))
    ensures Insert(s, x, key) == s + [x]
  {
    InsertPosUnique(s, x, key, |s|);
  }

  /** `List.Sort()`: the list as if its elements were inserted one by one. */
  function Sort<T>(s: seq<T>, key: T -> Key): (r: seq<T>)
    ensures |r| == |s|
    ensures multiset(r) == multiset(s)
  {
    if s == [] then []
    else
      assert s == s[..|s| - 1] + [s[|s| - 1]];
      Insert(Sort(s[..|s| - 1], key), s[|s| - 1], key)
  }

  lemma {:induction false} SortSorted<T>(s: seq<T>, key: T -> Key)
    ensures Sorted(Sort(s, key), key)
  {
    if s != [] {
      SortSorted(s[..|s| - 1], key);
      InsertSorted(Sort(s[..|s| - 1], key), s[|s| - 1], key);
    }
  }

  /** Sorting a list whose keys are distinct yields a strictly ascending list. */
  lemma {:induction false} SortStrictlySorted<T>(s: seq<T>, key: T -> Key)
    requires DistinctKeys(s, key)
    ensures StrictlySorted(Sort(s, key), key)
  {
    if s != [] {
      var init, x := s[..|s| - 1], s[|s| - 1];
      SortStrictlySorted(init, key);
      var t := Sort(init, key);
      forall q | 0 <= q < |t| ensures key(t[q]) != key(x) {
        assert t[q] in multiset(t);
        assert t[q] in init;
        var m :| 0 <= m < |init| && init[m] == t[q];
        assert s[m] == t[q];
      }
      InsertStrictlySorted(t, x, key);
    }
  }

  /** Sorting a strictly ascending list changes nothing. */
  lemma {:induction false} SortOfStrictlySorted<T>(s: seq<T>, key: T -> Key)
    requires StrictlySorted(s, key)
    ensures Sort(s, key) == s
  {
    if s != [] {
      var init, x := s[..|s| - 1], s[|s| - 1];
      SortOfStrictlySorted(init, key);
      InsertAtEnd(init, x, key);
      assert init + [x] == s;
    }
  }

  /** Appending one element to a strictly ascending list and sorting it inserts that element. */
  lemma AppendThenSort<T>(s: seq<T>, x: T, key: T -> Key)
    requires StrictlySorted(s, key)
    ensures Sort(s + [x], key) == Insert(s, x, key)
  {
    assert (s + [x])[..|s|] == s;
    SortOfStrictlySorted(s, key);
  }

  lemma StrictImpliesSorted<T>(s: seq<T>, key: T -> Key)
    requires StrictlySorted(s, key)
    ensures Sorted(s, key) && DistinctKeys(s, key)
  {
  }

  /** Two strictly ascending lists with the same elements start with the same element. */
  lemma HeadsAgree<T>(a: seq<T>, b: seq<T>, key: T -> Key)
    requires StrictlySorted(a, key) && StrictlySorted(b, key) && multiset(a) == multiset(b)
    requires a != []
    ensures b != [] && a[0] == b[0]
  {
    assert a[0] in multiset(b);
    var k :| 0 <= k < |b| && b[k] == a[0];
    assert b[0] in multiset(a);
    var m :| 0 <= m < |a| && a[m] == b[0];
    assert KeyLe(key(a[0]), key(a[m]));
    assert KeyLe(key(b[0]), key(b[k]));
    assert key(a[m]) == key(a[0]);
    assert m == 0;
  }

  /** Dropping the head of a list drops one copy of it from the multiset. */
  lemma TailMultiset<T>(s: seq<T>)
    requires s != []
    ensures multiset(s[1..]) == multiset(s) - multiset{s[0]}
  {
    assert s == [s[0]] + s[1..];
    assert multiset(s[1..]) == (multiset{s[0]} + multiset(s[1..])) - multiset{s[0]};
  }

  /**
    Two strictly ascending lists with the same elements are equal: once the
    keys are distinct, the result of a correct sort is determined by its input.
  */
  lemma {:induction false} StrictlySortedUnique<T>(a: seq<T>, b: seq<T>, key: T -> Key)
    requires StrictlySorted(a, key) && StrictlySorted(b, key) && multiset(a) == multiset(b)
    ensures a == b
    decreases |a|
  {
    if a == [] {
      assert |b| == |multiset(b)| == 0;
    } else {
      HeadsAgree(a, b, key);
      TailMultiset(a);
      TailMultiset(b);
      StrictlySortedUnique(a[1..], b[1..], key);
      assert a == [a[0]] + a[1..] && b == [b[0]] + b[1..];
    }
  }
}
