/** Sorting by an integer key, with what the callers rely on: order and contents. */
module Sorting {

  ghost predicate SortedBy<T>(s: seq<T>, key: T -> int) {
    forall i, j :: 0 <= i < j < |s| ==> key(s[i]) <= key(s[j])
  }

  /** A sorted prefix, a value between, a sorted suffix. */
  lemma Around<T>(left: seq<T>, x: T, right: seq<T>, key: T -> int)
    requires SortedBy(left, key) && SortedBy(right, key)
    requires forall k :: 0 <= k < |left| ==> key(left[k]) <= key(x)
    requires forall k :: 0 <= k < |right| ==> key(x) <= key(right[k])
    ensures SortedBy(left + [x] + right, key)
  {
    var r := left + [x] + right;
    forall i, j | 0 <= i < j < |r| ensures key(r[i]) <= key(r[j]) {
      if i < |left| { assert r[i] == left[i]; }
      if i > |left| { assert r[i] == right[i - |left| - 1]; }
      if j < |left| { assert r[j] == left[j]; }
      if j > |left| { assert r[j] == right[j - |left| - 1]; }
    }
  }

  /** Insertion of one element after every element with a smaller or equal key. */
  method Insert<T>(s: seq<T>, x: T, key: T -> int) returns (r: seq<T>)
    requires SortedBy(s, key)
    ensures SortedBy(r, key)
    ensures multiset(r) == multiset(s) + multiset{x}
  {
    var i := |s|;
    while i > 0 && key(x) < key(s[i - 1])
      invariant 0 <= i <= |s|
      invariant forall k :: i <= k < |s| ==> key(x) < key(s[k])
    {
      i := i - 1;
    }
    r := s[..i] + [x] + s[i..];
    Around(s[..i], x, s[i..], key);
    Adds(s, i, x);
  }

  lemma Adds<T>(s: seq<T>, i: nat, x: T)
    requires i <= |s|
    ensures multiset(s[..i] + [x] + s[i..]) == multiset(s) + multiset{x}
  {
    assert s == s[..i] + s[i..];
  }

  /** A stable sort by key. */
  method SortBy<T>(s: seq<T>, key: T -> int) returns (r: seq<T>)
    ensures SortedBy(r, key)
    ensures multiset(r) == multiset(s)
    ensures |r| == |s|
  {
    r := [];
    for i := 0 to |s|
      invariant SortedBy(r, key)
      invariant multiset(r) == multiset(s[..i])
    {
      r := Insert(r, s[i], key);
      assert s[..i + 1] == s[..i] + [s[i]];
    }
    assert s[..|s|] == s;
    assert |multiset(r)| == |r| && |multiset(s)| == |s|;
  }

  /** Two positions holding one value give it multiplicity two. */
  lemma RepeatedIndex<T>(s: seq<T>, i: nat, j: nat)
    requires i < j < |s| && s[i] == s[j]
    ensures multiset(s)[s[i]] >= 2
  {
    assert s == s[..j] + [s[j]] + s[j + 1..];
    assert s[i] in s[..j];
  }

  /** Multiplicity two gives two positions. */
  lemma RepeatedValue<T>(s: seq<T>, x: T) returns (i: nat, j: nat)
    requires multiset(s)[x] >= 2
    ensures i < j < |s| && s[i] == x && s[j] == x
  {
    assert x in s;
    i :| 0 <= i < |s| && s[i] == x;
    var rest := s[..i] + s[i + 1..];
    assert s == s[..i] + [s[i]] + s[i + 1..];
    assert multiset(s) == multiset(rest) + multiset{x};
    assert x in rest;
    var k :| 0 <= k < |rest| && rest[k] == x;
    if k < i { i, j := k, i; } else { j := k + 1; }
  }

  /** Two places of a sequence have their own two places in any permutation of it. */
  lemma PairMoves<A>(a: seq<A>, b: seq<A>, i: nat, j: nat) returns (k: nat, l: nat)
    requires multiset(a) == multiset(b) && i < j < |b|
    ensures k < |a| && l < |a| && k != l && a[k] == b[i] && a[l] == b[j]
  {
    if b[i] == b[j] {
      RepeatedIndex(b, i, j);
      k, l := RepeatedValue(a, b[i]);
    } else {
      assert b[i] in multiset(a) && b[j] in multiset(a);
      k :| 0 <= k < |a| && a[k] == b[i];
      l :| 0 <= l < |a| && a[l] == b[j];
    }
  }
}
