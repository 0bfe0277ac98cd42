// Facts about sequences that several components share.
module Sequences {

  ghost predicate Distinct<T(!new)>(s: seq<T>) {
    forall a, b :: 0 <= a < b < |s| ==> s[a] != s[b]
  }

  lemma {:induction false} DistinctBound<T(!new)>(s: seq<T>, universe: set<T>)
    requires Distinct(s)
    requires forall x :: x in s ==> x in universe
    ensures |s| <= |universe|
  {
    if s != [] {
      DistinctBound(s[..|s| - 1], universe - {s[|s| - 1]});
    }
  }

  lemma Associative<T>(a: seq<T>, b: seq<T>, c: seq<T>)
    ensures a + (b + c) == (a + b) + c
  {
  }

  lemma PrefixAt<T>(a: seq<T>, b: seq<T>, s: seq<T>, j: nat)
    requires a + b <= s && j < |b|
    ensures |a| + j < |s| && s[|a| + j] == b[j]
  {
    assert (a + b)[|a| + j] == b[j];
  }

  lemma MultisetSnoc<T>(s: seq<T>, x: T)
    ensures multiset(s + [x]) == multiset(s) + multiset{x}
  {
  }

  lemma MultisetLast<T>(s: seq<T>)
    requires s != []
    ensures multiset(s) == multiset(s[..|s| - 1]) + multiset{s[|s| - 1]}
  {
    assert s == s[..|s| - 1] + [s[|s| - 1]];
  }

  // `index` maps exactly the members of `keys`, each to its place.
  ghost predicate Indexes(index: map<string, nat>, keys: seq<string>) {
    && (forall i :: 0 <= i < |keys| ==> keys[i] in index && index[keys[i]] == i)
    && (forall k :: k in index ==> index[k] < |keys| && keys[index[k]] == k)
  }

  lemma IndexedDistinct(keys: seq<string>, index: map<string, nat>)
    requires Indexes(index, keys)
    ensures Distinct(keys)
  {
  }

  lemma IndexedMembers(keys: seq<string>, index: map<string, nat>, k: string)
    requires Indexes(index, keys)
    ensures k in index <==> k in keys
  {
  }

  // ---------- Sums ----------

  function Sum(w: nat -> nat, xs: seq<nat>): nat {
    if xs == [] then 0 else Sum(w, xs[..|xs| - 1]) + w(xs[|xs| - 1])
  }

  function UpTo(n: nat): seq<nat> {
    seq(n, k => k)
  }

  lemma SumSingle(w: nat -> nat, x: nat)
    ensures Sum(w, [x]) == w(x)
  {
  }

  lemma SumNext(w: nat -> nat, xs: seq<nat>, k: nat)
    requires k < |xs|
    ensures Sum(w, xs[..k + 1]) == Sum(w, xs[..k]) + w(xs[k])
  {
    assert xs[..k + 1][..k] == xs[..k];
  }

  lemma {:induction false} SumAppend(w: nat -> nat, xs: seq<nat>, ys: seq<nat>)
    ensures Sum(w, xs + ys) == Sum(w, xs) + Sum(w, ys)
  {
    if ys == [] {
      assert xs + ys == xs;
    } else {
      var init := ys[..|ys| - 1];
      SumAppend(w, xs, init);
      assert (xs + ys)[..|xs + ys| - 1] == xs + init;
    }
  }

  lemma {:induction false} SumAgrees(w1: nat -> nat, w2: nat -> nat, xs: seq<nat>)
    requires forall x :: x in xs ==> w1(x) == w2(x)
    ensures Sum(w1, xs) == Sum(w2, xs)
  {
    if xs != [] {
      SumAgrees(w1, w2, xs[..|xs| - 1]);
    }
  }

  // A sum does not depend on the order.
  lemma {:induction false} SumPermuted(w: nat -> nat, xs: seq<nat>, ys: seq<nat>)
    requires multiset(xs) == multiset(ys)
    ensures Sum(w, xs) == Sum(w, ys)
    decreases |xs|
  {
    if xs == [] {
      assert |multiset(ys)| == 0;
    } else {
      var last := xs[|xs| - 1];
      assert last in multiset(ys);
      var k :| 0 <= k < |ys| && ys[k] == last;
      var rest := ys[..k] + ys[k + 1..];
      assert xs == xs[..|xs| - 1] + [last];
      assert ys == ys[..k] + [last] + ys[k + 1..];
      assert multiset(rest) == multiset(ys) - multiset{last};
      SumPermuted(w, xs[..|xs| - 1], rest);
      SumAppend(w, ys[..k], ys[k + 1..]);
      SumAppend(w, ys[..k] + [last], ys[k + 1..]);
      assert (ys[..k] + [last])[..k] == ys[..k];
    }
  }

  // Raising one weight by `x` raises the sum over the first `n` numbers by `x`.
  lemma {:induction false} SumBumped(w1: nat -> nat, w2: nat -> nat, n: nat, at: nat, x: nat)
    requires forall i :: 0 <= i < n ==> w2(i) == w1(i) + if i == at then x else 0
    ensures Sum(w2, UpTo(n)) == Sum(w1, UpTo(n)) + if at < n then x else 0
  {
    if n > 0 {
      assert UpTo(n)[..n - 1] == UpTo(n - 1);
      SumBumped(w1, w2, n - 1, at, x);
    }
  }

  // The members that a filter lets through, ascending.
  ghost function UpToWhere(n: nat, keep: nat -> bool): seq<nat> {
    if n == 0 then []
    else if keep(n - 1) then UpToWhere(n - 1, keep) + [n - 1]
    else UpToWhere(n - 1, keep)
  }

  function Masked(w: nat -> nat, keep: nat -> bool): nat -> nat {
    (i: nat) => if keep(i) then w(i) else 0
  }

  lemma CountSnoc(s: seq<nat>, x: nat, j: nat)
    ensures multiset(s + [x])[j] == multiset(s)[j] + if x == j then 1 else 0
  {
  }

  lemma {:induction false} UpToWhereCounts(n: nat, keep: nat -> bool, j: nat)
    ensures multiset(UpToWhere(n, keep))[j] == if j < n && keep(j) then 1 else 0
  {
    if n > 0 {
      UpToWhereCounts(n - 1, keep, j);
      if keep(n - 1) { CountSnoc(UpToWhere(n - 1, keep), n - 1, j); }
    }
  }

  lemma {:induction false} SumWhere(w: nat -> nat, n: nat, keep: nat -> bool)
    ensures Sum(w, UpToWhere(n, keep)) == Sum(Masked(w, keep), UpTo(n))
  {
    if n > 0 {
      SumWhere(w, n - 1, keep);
      assert UpTo(n)[..n - 1] == UpTo(n - 1);
      var before := UpToWhere(n - 1, keep);
      if keep(n - 1) { assert (before + [n - 1])[..|before|] == before; }
    }
  }

  // A sum over a list that holds each kept number below `n` once, and nothing else.
  lemma SumSelected(w: nat -> nat, xs: seq<nat>, n: nat, keep: nat -> bool)
    requires forall j: nat :: multiset(xs)[j] == if j < n && keep(j) then 1 else 0
    ensures Sum(w, xs) == Sum(Masked(w, keep), UpTo(n))
  {
    forall j: nat
      ensures multiset(xs)[j] == multiset(UpToWhere(n, keep))[j]
    {
      UpToWhereCounts(n, keep, j);
    }
    assert multiset(xs) == multiset(UpToWhere(n, keep));
    SumPermuted(w, xs, UpToWhere(n, keep));
    SumWhere(w, n, keep);
  }

  ghost predicate Increasing(s: seq<nat>) {
    forall a, b :: 0 <= a < b < |s| ==> s[a] < s[b]
  }
}
