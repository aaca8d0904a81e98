/** Facts about sequences used to compare the key lists a scan yields with the
    key sets of the store. */
module Seqs {

  predicate NoDuplicates<T(==)>(xs: seq<T>) {
    forall i, j :: 0 <= i < j < |xs| ==> xs[i] != xs[j]
  }

  function Elements<T>(xs: seq<T>): set<T> {
    set x | x in xs
  }

  /** In a duplicate-free sequence every element occurs exactly once. */
  lemma {:induction false} NoDuplicatesOccurOnce<T>(xs: seq<T>)
    requires NoDuplicates(xs)
    ensures forall x :: multiset(xs)[x] == if x in xs then 1 else 0
    decreases |xs|
  {
    if |xs| > 0 {
      var init := xs[..|xs| - 1];
      var last := xs[|xs| - 1];
      NoDuplicatesOccurOnce(init);
      assert xs == init + [last];
      assert last !in init;
      forall x
        ensures multiset(xs)[x] == if x in xs then 1 else 0
      {
        assert multiset(xs)[x] == multiset(init)[x] + multiset([last])[x];
        assert x in xs <==> x in init || x == last;
      }
    }
  }

  /** Two duplicate-free sequences with the same elements are permutations of
      each other. */
  lemma SameElementsArePermutations<T>(xs: seq<T>, ys: seq<T>)
    requires NoDuplicates(xs) && NoDuplicates(ys)
    requires Elements(xs) == Elements(ys)
    ensures multiset(xs) == multiset(ys)
  {
    NoDuplicatesOccurOnce(xs);
    NoDuplicatesOccurOnce(ys);
    forall x
      ensures multiset(xs)[x] == multiset(ys)[x]
    {
      assert x in xs <==> x in Elements(xs);
      assert x in ys <==> x in Elements(ys);
    }
  }

  /** A duplicate-free sequence has as many elements as its length. */
  lemma {:induction false} NoDuplicatesCardinality<T>(xs: seq<T>)
    requires NoDuplicates(xs)
    ensures |Elements(xs)| == |xs|
    decreases |xs|
  {
    if |xs| > 0 {
      var init := xs[..|xs| - 1];
      var last := xs[|xs| - 1];
      NoDuplicatesCardinality(init);
      assert xs == init + [last];
      assert Elements(xs) == Elements(init) + {last};
      assert last !in Elements(init);
    }
  }

  /** Taking one element out of a sequence takes it out of its multiset. */
  lemma MultisetWithout<T>(s: seq<T>, j: nat)
    requires j < |s|
    ensures multiset(s) == multiset(s[..j] + s[j + 1..]) + multiset{s[j]}
  {
    assert s == s[..j] + [s[j]] + s[j + 1..];
  }

  lemma MultisetCancel<T>(a: multiset<T>, b: multiset<T>, x: T)
    requires a + multiset{x} == b + multiset{x}
    ensures a == b
  {
    forall y
      ensures a[y] == b[y]
    {
      assert (a + multiset{x})[y] == (b + multiset{x})[y];
    }
  }

  /** Applying the same function pointwise to two permutations of each other
      gives two permutations of each other. */
  lemma {:induction false} MapPermutation<A, B>(f: A -> B, xs: seq<A>, ys: seq<A>, fxs: seq<B>, fys: seq<B>)
    requires multiset(xs) == multiset(ys)
    requires |fxs| == |xs| && forall i :: 0 <= i < |xs| ==> fxs[i] == f(xs[i])
    requires |fys| == |ys| && forall i :: 0 <= i < |ys| ==> fys[i] == f(ys[i])
    ensures multiset(fxs) == multiset(fys)
    decreases |xs|
  {
    if |xs| == 0 {
      assert |multiset(ys)| == 0;
    } else {
      var n := |xs| - 1;
      var x := xs[n];
      assert x in multiset(ys);
      var j :| 0 <= j < |ys| && ys[j] == x;
      var ys' := ys[..j] + ys[j + 1..];
      var fys' := fys[..j] + fys[j + 1..];
      MultisetWithout(xs, n);
      MultisetWithout(ys, j);
      MultisetWithout(fxs, n);
      MultisetWithout(fys, j);
      assert xs[..n] + xs[n + 1..] == xs[..n];
      assert fxs[..n] + fxs[n + 1..] == fxs[..n];
      MultisetCancel(multiset(ys'), multiset(xs[..n]), x);
      MapPermutation(f, xs[..n], ys', fxs[..n], fys');
    }
  }

  /** The elements of `xs` that satisfy `p`, in order. */
  function Filter<T>(xs: seq<T>, p: T -> bool): seq<T>
    decreases |xs|
  {
    if |xs| == 0 then []
    else Filter(xs[..|xs| - 1], p) + (if p(xs[|xs| - 1]) then [xs[|xs| - 1]] else [])
  }

  /** The set of elements of `xs` that satisfy `p`. */
  function Selected<T>(xs: seq<T>, p: T -> bool): set<T> {
    set x | x in xs && p(x)
  }

  /** In a duplicate-free sequence, the number of elements satisfying `p` is the
      size of the set of such elements. */
  lemma {:induction false} FilterCount<T>(xs: seq<T>, p: T -> bool)
    requires NoDuplicates(xs)
    ensures |Filter(xs, p)| == |Selected(xs, p)|
    decreases |xs|
  {
    if |xs| > 0 {
      var init := xs[..|xs| - 1];
      var last := xs[|xs| - 1];
      FilterCount(init, p);
      assert xs == init + [last];
      assert Elements(xs) == Elements(init) + {last};
      assert last !in Elements(init);
      FilterSetStep(Elements(init), last, p);
      assert Selected(xs, p) == set y | y in Elements(init) + {last} && p(y);
      assert Selected(init, p) == set y | y in Elements(init) && p(y);
      assert Filter(xs, p) == Filter(init, p) + (if p(last) then [last] else []);
    }
  }

  /** Adding a new element to a set adds it to the filtered set exactly when it
      passes the filter. */
  lemma FilterSetStep<T>(s: set<T>, x: T, p: T -> bool)
    requires x !in s
    ensures |set y | y in s + {x} && p(y)| == |set y | y in s && p(y)| + (if p(x) then 1 else 0)
  {
    var before := set y | y in s && p(y);
    var after := set y | y in s + {x} && p(y);
    if p(x) {
      assert after == before + {x};
    } else {
      assert after == before;
    }
  }
}
