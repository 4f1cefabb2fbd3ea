/** The optional value used for board slots and card positions (Java's nullable Integer). */
module Options {

  datatype Option<+T> = None | Some(value: T)
}

/** Sequence helpers shared by the board, the players and the dealer. */
module Lists {

  /** No element occurs twice. */
  ghost predicate NoDuplicates(xs: seq<nat>)
  {
    forall i, j :: 0 <= i < j < |xs| ==> xs[i] != xs[j]
  }

  function Min(a: nat, b: nat): nat
  {
    if a <= b then a else b
  }

  /** Removes the first occurrence of x, as java.util.Vector.remove(Object) does. */
  function RemoveFirst(xs: seq<nat>, x: nat): (r: seq<nat>)
    ensures x !in xs ==> r == xs
    ensures forall y :: y in r ==> y in xs
    ensures forall y :: y in xs && y != x ==> y in r
    ensures x in xs ==> |r| == |xs| - 1
    ensures NoDuplicates(xs) ==> NoDuplicates(r) && x !in r
  {
    if |xs| == 0 then []
    else if xs[0] == x then
      assert xs == [xs[0]] + xs[1..];
      xs[1..]
    else
      var rest := RemoveFirst(xs[1..], x);
      assert xs == [xs[0]] + xs[1..];
      assert NoDuplicates(xs) ==> xs[0] !in xs[1..];
      [xs[0]] + rest
  }

  /** Removing an element just appended to a list that did not hold it gives the list back. */
  lemma {:induction false} RemoveFirstAppended(xs: seq<nat>, x: nat)
    requires x !in xs
    ensures RemoveFirst(xs + [x], x) == xs
  {
    if |xs| > 0 {
      assert (xs + [x])[1..] == xs[1..] + [x];
      RemoveFirstAppended(xs[1..], x);
    }
  }

  /** Two duplicate-free lists with no common element concatenate to a duplicate-free list. */
  lemma NoDuplicatesAppend(xs: seq<nat>, ys: seq<nat>)
    requires NoDuplicates(xs) && NoDuplicates(ys)
    requires forall x :: x in xs ==> x !in ys
    ensures NoDuplicates(xs + ys)
  {
    var zs := xs + ys;
    forall i, j | 0 <= i < j < |zs|
      ensures zs[i] != zs[j]
    {
      if i < |xs| && j >= |xs| {
        assert zs[i] in xs && zs[j] == ys[j - |xs|];
      }
    }
  }

  /** In a list without duplicates an element is counted at most once. */
  lemma {:induction false} NoDuplicatesCount(xs: seq<nat>, x: nat)
    requires NoDuplicates(xs)
    ensures multiset(xs)[x] == if x in xs then 1 else 0
  {
    if |xs| > 0 {
      assert xs == [xs[0]] + xs[1..];
      NoDuplicatesCount(xs[1..], x);
    }
  }

  /** The indices in [lo, hi) that satisfy keep, in ascending order. */
  function Filter(lo: nat, hi: nat, keep: nat -> bool): (r: seq<nat>)
    ensures |r| <= if lo <= hi then hi - lo else 0
    ensures forall k :: 0 <= k < |r| ==> lo <= r[k] < hi && keep(r[k])
    ensures forall k, m :: 0 <= k < m < |r| ==> r[k] < r[m]
    ensures forall s :: lo <= s < hi && keep(s) ==> s in r
    decreases hi - lo
  {
    if lo >= hi then []
    else if keep(lo) then [lo] + Filter(lo + 1, hi, keep)
    else Filter(lo + 1, hi, keep)
  }

  /** Two tests that agree on [lo, hi) select the same indices. */
  lemma {:induction false} FilterSame(lo: nat, hi: nat, f: nat -> bool, g: nat -> bool)
    requires forall s :: lo <= s < hi ==> f(s) == g(s)
    ensures Filter(lo, hi, f) == Filter(lo, hi, g)
    decreases hi - lo
  {
    if lo < hi {
      FilterSame(lo + 1, hi, f, g);
    }
  }

  /** Changing the test at one index changes the number of selected indices by at most one. */
  lemma {:induction false} FilterOneChange(lo: nat, hi: nat, f: nat -> bool, g: nat -> bool, k: nat)
    requires lo <= k < hi
    requires forall s :: lo <= s < hi && s != k ==> f(s) == g(s)
    ensures |Filter(lo, hi, g)| + (if f(k) then 1 else 0) == |Filter(lo, hi, f)| + (if g(k) then 1 else 0)
    decreases hi - lo
  {
    var restF, restG := Filter(lo + 1, hi, f), Filter(lo + 1, hi, g);
    assert Filter(lo, hi, f) == (if f(lo) then [lo] else []) + restF;
    assert Filter(lo, hi, g) == (if g(lo) then [lo] else []) + restG;
    if lo == k {
      FilterSame(lo + 1, hi, f, g);
    } else {
      FilterOneChange(lo + 1, hi, f, g, k);
    }
  }

  /** A test that holds nowhere selects nothing. */
  lemma FilterNone(lo: nat, hi: nat, f: nat -> bool)
    requires forall s :: lo <= s < hi ==> !f(s)
    ensures Filter(lo, hi, f) == []
    decreases hi - lo
  {
    if lo < hi {
      FilterNone(lo + 1, hi, f);
    }
  }

  /** A list in which some element occurs twice counts that element at least twice. */
  lemma RepeatCounted(ys: seq<nat>, i: nat, j: nat)
    requires i < j < |ys| && ys[i] == ys[j]
    ensures multiset(ys)[ys[i]] >= 2
  {
    assert ys == ys[..i] + [ys[i]] + ys[i + 1..j] + [ys[j]] + ys[j + 1..];
  }

  /** A permutation of a duplicate-free list is duplicate-free. */
  lemma PermutationDistinct(xs: seq<nat>, ys: seq<nat>)
    requires multiset(xs) == multiset(ys) && NoDuplicates(xs)
    ensures NoDuplicates(ys)
  {
    forall i, j | 0 <= i < j < |ys|
      ensures ys[i] != ys[j]
    {
      NoDuplicatesCount(xs, ys[i]);
      if ys[i] == ys[j] {
        RepeatCounted(ys, i, j);
      }
    }
  }

  /** A non-empty list is its head followed by its tail, as a multiset too. */
  lemma MultisetHead(xs: seq<nat>)
    requires |xs| > 0
    ensures multiset(xs) == multiset{xs[0]} + multiset(xs[1..])
  {
    assert xs == [xs[0]] + xs[1..];
  }

  /** Dropping n elements of a list is dropping its head and then n - 1 more. */
  lemma TailDrop(xs: seq<nat>, n: nat)
    requires 1 <= n <= |xs|
    ensures xs[1..][n - 1..] == xs[n..]
  {
  }

  /** An element missing from a prefix of x :: xs is not x and is missing from the shorter prefix of xs. */
  lemma PrefixConsMissing(x: nat, xs: seq<nat>, n: nat, y: nat)
    requires 1 <= n <= |xs| + 1 && y !in ([x] + xs)[..n]
    ensures y != x && y !in xs[..n - 1]
  {
    assert ([x] + xs)[..n] == [x] + xs[..n - 1];
  }

  /** Past the head, the elements of x :: xs are those of xs, one position earlier. */
  lemma ConsAt(x: nat, xs: seq<nat>, k: nat)
    requires 0 < k <= |xs|
    ensures ([x] + xs)[k] == xs[k - 1]
  {
  }

  /** Concatenation is associative. */
  lemma AppendAssoc<T>(a: seq<T>, b: seq<T>, c: seq<T>)
    ensures a + (b + c) == (a + b) + c
  {
  }

  /** The prefix as long as the list is the list. */
  lemma PrefixWhole(xs: seq<nat>, n: nat)
    requires n == |xs|
    ensures xs[..n] == xs
  {
  }
}
