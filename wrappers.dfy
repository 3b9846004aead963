/** Small helper datatypes shared by the model. */
module Wrappers {

  /** An optional value; `None` stands for a C# `null` reference. */
  datatype Option<T> = None | Some(value: T)

  function Min(a: int, b: int): int { if a <= b then a else b }

  function Max(a: int, b: int): int { if a <= b then b else a }
}

/** The `List<T>.FindIndex(predicate)` lookup the engine uses throughout. */
module Lists {

  /** The index of the first element satisfying `p`, or -1. */
  function FindIndex<T>(s: seq<T>, p: T -> bool): (r: int)
    ensures r == -1 <==> forall k :: 0 <= k < |s| ==> !p(s[k])
    ensures r != -1 ==> 0 <= r < |s| && p(s[r])
    ensures r != -1 ==> forall k :: 0 <= k < r ==> !p(s[k])
  {
    if s == [] then -1
    else if p(s[0]) then 0
    else
      var r := FindIndex(s[1..], p);
      if r == -1 then -1 else r + 1
  }
}

/** Index identities for putting one element into a sequence and taking it out again. */
module Splices {

  /** Taking out what was just put in at position `p` gives back the sequence. */
  lemma SpliceThenRemove<T>(s: seq<T>, p: int, x: T)
    requires 0 <= p <= |s|
    ensures (s[..p] + [x] + s[p..])[p] == x
    ensures (s[..p] + [x] + s[p..])[..p] + (s[..p] + [x] + s[p..])[p + 1..] == s
  {
    var t := s[..p] + [x] + s[p..];
    assert t[..p] == s[..p];
    assert t[p + 1..] == s[p..];
    assert s[..p] + s[p..] == s;
  }

  /** Putting back the element just taken out of position `p` gives back the sequence. */
  lemma RemoveThenSplice<T>(s: seq<T>, p: int)
    requires 0 <= p < |s|
    ensures (s[..p] + s[p + 1..])[..p] + [s[p]] + (s[..p] + s[p + 1..])[p..] == s
  {
    var r := s[..p] + s[p + 1..];
    assert r[..p] == s[..p];
    assert r[p..] == s[p + 1..];
    assert s == s[..p] + [s[p]] + s[p + 1..];
  }

  /** After putting `x` in at position `k`, element `m` of `s` sits at `m`, or at `m + 1` from `k` on. */
  lemma SpliceIndex<T>(s: seq<T>, k: int, x: T)
    requires 0 <= k <= |s|
    ensures |s[..k] + [x] + s[k..]| == |s| + 1
    ensures (s[..k] + [x] + s[k..])[k] == x
    ensures forall m :: 0 <= m < |s| ==> (s[..k] + [x] + s[k..])[if m >= k then m + 1 else m] == s[m]
  {
    var t := s[..k] + [x] + s[k..];
    forall m | 0 <= m < |s| ensures t[if m >= k then m + 1 else m] == s[m] {
      if m >= k {
        assert t[m + 1] == s[k..][m - k];
      }
    }
  }
}
