/** The additions/deletions diff between a current and a target list of integers
    (array_diff.py): both outputs are built from Python sets, so they are
    modelled as duplicate-free sequences whose order the contracts leave open. */
module ArrayDiff {

  /** The set of values occurring in a list (Python's `set(xs)`). */
  function Elements(xs: seq<int>): (e: set<int>)
    ensures forall x :: x in e <==> x in xs
  {
    set x | x in xs
  }

  predicate NoDuplicates(xs: seq<int>) {
    forall i, j :: 0 <= i < j < |xs| ==> xs[i] != xs[j]
  }

  /** The distinct values of `xs` that are not in `excluded`, each once: the
      list Python builds with `list(set(xs) - excluded)`. CPython enumerates a set
      in hash-table order; the model keeps first occurrences in `xs` order, and no
      contract below depends on that choice. */
  function Distinct(xs: seq<int>, excluded: set<int>): (r: seq<int>)
    ensures forall y :: y in r <==> y in xs && y !in excluded
    ensures NoDuplicates(r)
  {
    if xs == [] then []
    else
      var rest := Distinct(xs[..|xs| - 1], excluded);
      var x := xs[|xs| - 1];
      assert xs == xs[..|xs| - 1] + [x];
      if x in excluded || x in rest then rest else rest + [x]
  }

  /** Nothing survives when every value is excluded. */
  lemma {:induction false} AllExcluded(xs: seq<int>, excluded: set<int>)
    requires Elements(xs) <= excluded
    ensures Distinct(xs, excluded) == []
  {
    if xs != [] {
      var init := xs[..|xs| - 1];
      assert Elements(init) <= Elements(xs);
      AllExcluded(init, excluded);
      assert xs[|xs| - 1] in Elements(xs);
    }
  }

  /** `array_diff(current, target)`: `(additions, deletions)`, where additions
      are the target values missing from current and deletions the current
      values missing from target. Applying them to current yields target. */
  function Diff(current: seq<int>, target: seq<int>): (r: (seq<int>, seq<int>))
    ensures forall x :: x in r.0 <==> x in target && x !in current
    ensures forall x :: x in r.1 <==> x in current && x !in target
    ensures NoDuplicates(r.0) && NoDuplicates(r.1)
    ensures forall x :: x in r.0 ==> x !in r.1
    ensures (Elements(current) + Elements(r.0)) - Elements(r.1) == Elements(target)
  {
    var additions := Distinct(target, Elements(current));
    var deletions := Distinct(current, Elements(target));
    (additions, deletions)
  }

  /** A duplicate-free list holds each of its elements exactly once. */
  lemma {:induction false} NoDuplicatesMultiset(xs: seq<int>)
    requires NoDuplicates(xs)
    ensures multiset(xs) == multiset(Elements(xs))
  {
    if xs != [] {
      var rest := xs[1..];
      assert NoDuplicates(rest);
      NoDuplicatesMultiset(rest);
      assert xs == [xs[0]] + rest;
      assert xs[0] !in rest;
      assert Elements(xs) == {xs[0]} + Elements(rest);
    }
  }

  /** Two duplicate-free lists with the same elements are permutations of each other. */
  lemma SameElementsPermutation(xs: seq<int>, ys: seq<int>)
    requires NoDuplicates(xs) && NoDuplicates(ys)
    requires Elements(xs) == Elements(ys)
    ensures multiset(xs) == multiset(ys)
  {
    NoDuplicatesMultiset(xs);
    NoDuplicatesMultiset(ys);
  }

  /** Diffing from an empty current list: the additions are a permutation of the
      (duplicate-free) target and there is nothing to delete. */
  lemma FullAddition(target: seq<int>)
    requires NoDuplicates(target)
    ensures multiset(Diff([], target).0) == multiset(target)
    ensures Diff([], target).1 == []
  {
    var r := Diff([], target);
    assert Elements(r.0) == Elements(target);
    SameElementsPermutation(r.0, target);
  }

  /** Diffing to an empty target: nothing to add, and the deletions are a
      permutation of the (duplicate-free) current list. */
  lemma FullDeletion(current: seq<int>)
    requires NoDuplicates(current)
    ensures Diff(current, []).0 == []
    ensures multiset(Diff(current, []).1) == multiset(current)
  {
    var r := Diff(current, []);
    assert Elements(r.1) == Elements(current);
    SameElementsPermutation(r.1, current);
  }

  /** A target contained in current needs no additions; a current contained in
      target needs no deletions. */
  lemma NothingToAdd(current: seq<int>, target: seq<int>)
    requires Elements(target) <= Elements(current)
    ensures Diff(current, target).0 == []
  {
    AllExcluded(target, Elements(current));
  }

  lemma NothingToDelete(current: seq<int>, target: seq<int>)
    requires Elements(current) <= Elements(target)
    ensures Diff(current, target).1 == []
  {
    AllExcluded(current, Elements(target));
  }

  /** The worked example: current [1,3,5,6,8,9], target [1,2,5,7,9] adds 2 and 7 ... */
  lemma ProvidedAdditions()
    ensures Elements(Diff([1, 3, 5, 6, 8, 9], [1, 2, 5, 7, 9]).0) == {2, 7}
  {
    var r := Diff([1, 3, 5, 6, 8, 9], [1, 2, 5, 7, 9]);
    assert forall x :: x in r.0 <==> x == 2 || x == 7;
  }

  /** ... and deletes 3, 6 and 8. */
  lemma ProvidedDeletions()
    ensures Elements(Diff([1, 3, 5, 6, 8, 9], [1, 2, 5, 7, 9]).1) == {3, 6, 8}
  {
    var r := Diff([1, 3, 5, 6, 8, 9], [1, 2, 5, 7, 9]);
    assert forall x :: x in r.1 <==> x == 3 || x == 6 || x == 8;
  }
}
