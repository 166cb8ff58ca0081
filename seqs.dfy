/** The two query operations both collections offer, on sequences of
    documents: selection by a filter (`find`) and ascending order on a string
    field (`.sort({ field: 1 })`). The store does not promise any order among
    documents with equal sort keys, so the properties proved here are the ones
    every such ordering shares: the result is ordered and is a permutation of
    the selection. */
module Seqs {
  import opened Wrappers
  import opened JsString

  /** Index of the first document of `s` that satisfies `p` (`findOne` scans in
      stored order). */
  function FindFirst<T>(s: seq<T>, p: T -> bool): (r: Option<nat>)
    ensures r.Some? ==> r.value < |s| && p(s[r.value])
    ensures r.Some? ==> forall j :: 0 <= j < r.value ==> !p(s[j])
    ensures r.None? ==> forall j :: 0 <= j < |s| ==> !p(s[j])
  {
    if s == [] then None
    else if p(s[0]) then Some(0)
    else match FindFirst(s[1..], p)
      case None => None
      case Some(i) => Some(i + 1)
  }

  /** The documents of `s` that satisfy `p`, in their stored order. */
  function Filter<T(!new)>(s: seq<T>, p: T -> bool): (r: seq<T>)
    ensures |r| <= |s|
    ensures forall x :: x in r <==> x in s && p(x)
    ensures forall i :: 0 <= i < |r| ==> p(r[i])
  {
    if s == [] then []
    else if p(s[0]) then [s[0]] + Filter(s[1..], p)
    else Filter(s[1..], p)
  }

  /** Filtering a longer sequence extends the filtered prefix by the new
      document exactly when it passes. */
  lemma {:induction false} FilterSnoc<T(!new)>(s: seq<T>, x: T, p: T -> bool)
    ensures Filter(s + [x], p) == Filter(s, p) + (if p(x) then [x] else [])
  {
    if s == [] {
      assert [x][1..] == [];
    } else {
      assert (s + [x])[1..] == s[1..] + [x];
      FilterSnoc(s[1..], x, p);
    }
  }

  /** The store's scan for `find`: every document that passes, in order. */
  method SelectAll<T(!new)>(s: seq<T>, p: T -> bool) returns (r: seq<T>)
    ensures r == Filter(s, p)
  {
    r := [];
    var i := 0;
    while i < |s|
      invariant 0 <= i <= |s|
      invariant r == Filter(s[..i], p)
    {
      FilterSnoc(s[..i], s[i], p);
      assert s[..i + 1] == s[..i] + [s[i]];
      if p(s[i]) {
        r := r + [s[i]];
      }
      i := i + 1;
    }
    assert s[..i] == s;
  }

  /** The store's scan for `findOne`: the position of the first document that
      passes. */
  method SelectFirst<T>(s: seq<T>, p: T -> bool) returns (r: Option<nat>)
    ensures r == FindFirst(s, p)
  {
    var i := 0;
    while i < |s|
      invariant 0 <= i <= |s|
      invariant forall j :: 0 <= j < i ==> !p(s[j])
    {
      if p(s[i]) {
        return Some(i);
      }
      i := i + 1;
    }
    return None;
  }

  /** `R` holds of every pair of documents, taken in stored order. */
  predicate Pairwise<T>(s: seq<T>, R: (T, T) -> bool) {
    forall i, j :: 0 <= i < j < |s| ==> R(s[i], s[j])
  }

  lemma PairwiseCons<T>(x: T, t: seq<T>, R: (T, T) -> bool)
    ensures Pairwise([x] + t, R) <==> Pairwise(t, R) && forall y :: y in t ==> R(x, y)
  {
    var s := [x] + t;
    if Pairwise(s, R) {
      forall i, j | 0 <= i < j < |t| ensures R(t[i], t[j]) {
        assert t[i] == s[i + 1] && t[j] == s[j + 1];
      }
      forall y | y in t ensures R(x, y) {
        var j :| 0 <= j < |t| && t[j] == y;
        assert s[0] == x && s[j + 1] == y;
        assert R(s[0], s[j + 1]);
      }
    }
  }

  lemma PairwiseSnoc<T>(s: seq<T>, x: T, R: (T, T) -> bool)
    ensures Pairwise(s + [x], R) <==> Pairwise(s, R) && forall y :: y in s ==> R(y, x)
  {
    var t := s + [x];
    if Pairwise(s, R) && forall y :: y in s ==> R(y, x) {
      forall i, j | 0 <= i < j < |t| ensures R(t[i], t[j]) {
        assert t[i] == s[i] && s[i] in s;
      }
    }
    if Pairwise(t, R) {
      forall i, j | 0 <= i < j < |s| ensures R(s[i], s[j]) {
        assert s[i] == t[i] && s[j] == t[j];
      }
      forall y | y in s ensures R(y, x) {
        var i :| 0 <= i < |s| && s[i] == y;
        assert R(t[i], t[|s|]);
      }
    }
  }

  /** Selection keeps a pairwise property: it only drops documents. */
  lemma {:induction false} FilterKeepsPairwise<T(!new)>(s: seq<T>, p: T -> bool, R: (T, T) -> bool)
    requires Pairwise(s, R)
    ensures Pairwise(Filter(s, p), R)
  {
    if s != [] {
      var rest := s[1..];
      assert s == [s[0]] + rest;
      PairwiseCons(s[0], rest, R);
      FilterKeepsPairwise(rest, p, R);
      if p(s[0]) {
        PairwiseCons(s[0], Filter(rest, p), R);
      }
    }
  }

  /** A filter every document passes keeps the sequence whole. */
  lemma {:induction false} FilterAll<T(!new)>(s: seq<T>, p: T -> bool)
    requires forall x :: x in s ==> p(x)
    ensures Filter(s, p) == s
  {
    if s != [] {
      FilterAll(s[1..], p);
      assert s == [s[0]] + s[1..];
    }
  }

  /** A filter that only the document at `i` fails removes just that one. */
  lemma {:induction false} FilterDropsOne<T(!new)>(s: seq<T>, i: nat, p: T -> bool)
    requires i < |s| && !p(s[i])
    requires forall j :: 0 <= j < |s| && j != i ==> p(s[j])
    ensures Filter(s, p) == s[..i] + s[i + 1..]
  {
    var t := s[1..];
    if i == 0 {
      forall x | x in t ensures p(x) {
        var j :| 0 <= j < |t| && t[j] == x;
        assert t[j] == s[j + 1];
      }
      FilterAll(t, p);
    } else {
      forall j | 0 <= j < |t| && j != i - 1 ensures p(t[j]) {
        assert t[j] == s[j + 1];
      }
      FilterDropsOne(t, i - 1, p);
      assert p(s[0]);
      DropAfterFirst(s, i);
    }
  }

  lemma DropAfterFirst<T>(s: seq<T>, i: nat)
    requires 0 < i < |s|
    ensures s[..i] + s[i + 1..] == [s[0]] + (s[1..][..i - 1] + s[1..][i..])
  {}

  predicate SortedBy<T>(s: seq<T>, key: T -> string) {
    forall i, j :: 0 <= i < j < |s| ==> LexLe(key(s[i]), key(s[j]))
  }

  /** Inserts `x` in front of the first element whose key is larger. */
  function InsertByKey<T>(x: T, s: seq<T>, key: T -> string): (r: seq<T>)
    requires SortedBy(s, key)
    ensures SortedBy(r, key)
    ensures multiset(r) == multiset(s) + multiset{x}
  {
    if s == [] then [x]
    else if LexLe(key(x), key(s[0])) then
      InsertInFront(x, s, key);
      [x] + s
    else
      var rest := InsertByKey(x, s[1..], key);
      InsertAfterFirst(x, s, rest, key);
      [s[0]] + rest
  }

  lemma SortedCons<T>(y: T, t: seq<T>, key: T -> string)
    requires SortedBy(t, key)
    requires forall z :: z in t ==> LexLe(key(y), key(z))
    ensures SortedBy([y] + t, key)
  {
    var s := [y] + t;
    forall i, j | 0 <= i < j < |s| ensures LexLe(key(s[i]), key(s[j])) {
      assert s[j] == t[j - 1] && t[j - 1] in t;
      if i > 0 {
        assert s[i] == t[i - 1];
      }
    }
  }

  lemma InsertInFront<T>(x: T, s: seq<T>, key: T -> string)
    requires s != [] && SortedBy(s, key) && LexLe(key(x), key(s[0]))
    ensures SortedBy([x] + s, key)
  {
    forall z | z in s ensures LexLe(key(x), key(z)) {
      var j :| 0 <= j < |s| && s[j] == z;
      if j > 0 {
        LexLeTransitive(key(x), key(s[0]), key(s[j]));
      }
    }
    SortedCons(x, s, key);
  }

  lemma InsertAfterFirst<T>(x: T, s: seq<T>, rest: seq<T>, key: T -> string)
    requires s != [] && SortedBy(s, key) && !LexLe(key(x), key(s[0]))
    requires SortedBy(rest, key) && multiset(rest) == multiset(s[1..]) + multiset{x}
    ensures SortedBy([s[0]] + rest, key)
    ensures multiset([s[0]] + rest) == multiset(s) + multiset{x}
  {
    LexLeTotal(key(x), key(s[0]));
    forall z | z in rest ensures LexLe(key(s[0]), key(z)) {
      assert z in multiset(rest);
      if z != x {
        assert z in multiset(s[1..]);
        var j :| 0 <= j < |s[1..]| && s[1..][j] == z;
        assert s[j + 1] == z;
      }
    }
    SortedCons(s[0], rest, key);
    assert s == [s[0]] + s[1..];
  }

  /** The documents of `s` in ascending order of `key`. */
  function SortByKey<T>(s: seq<T>, key: T -> string): (r: seq<T>)
    ensures SortedBy(r, key)
    ensures multiset(r) == multiset(s)
  {
    if s == [] then []
    else
      assert s == [s[0]] + s[1..];
      InsertByKey(s[0], SortByKey(s[1..], key), key)
  }

  /** A document is in the sorted selection exactly when it is stored and
      passes the filter. */
  lemma SortedSelectionMembers<T(!new)>(s: seq<T>, p: T -> bool, key: T -> string, x: T)
    ensures x in SortByKey(Filter(s, p), key) <==> x in s && p(x)
  {
    var r := SortByKey(Filter(s, p), key);
    assert x in r <==> x in multiset(r);
    assert x in Filter(s, p) <==> x in multiset(Filter(s, p));
  }
}
