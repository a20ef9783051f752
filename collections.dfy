/**
 * Sequences without duplicates, and a model of JavaScript's insertion-ordered `Set<T>`,
 * whose `Array.from` view is the sequence of its elements in first-insertion order.
 */
module Collections {

  predicate NoDup<T(==)>(s: seq<T>) {
    forall i, j :: 0 <= i < j < |s| ==> s[i] != s[j]
  }

  function Elems<T>(s: seq<T>): set<T> {
    set x | x in s
  }

  /** `set.add(x)` on the ordered element sequence `acc`. */
  function Insert<T(==,!new)>(acc: seq<T>, x: T): (r: seq<T>)
    ensures acc <= r
    ensures x in r
    ensures forall y :: y in r <==> y in acc || y == x
    ensures NoDup(acc) ==> NoDup(r)
  {
    if x in acc then acc else acc + [x]
  }

  /** `xs.forEach(x => set.add(x))`: adds the elements of `xs` in order. */
  function InsertAll<T(==,!new)>(acc: seq<T>, xs: seq<T>): (r: seq<T>)
    ensures acc <= r
    ensures forall y :: y in r <==> y in acc || y in xs
    ensures NoDup(acc) ==> NoDup(r)
    decreases |xs|
  {
    if xs == [] then acc else Insert(InsertAll(acc, xs[..|xs| - 1]), xs[|xs| - 1])
  }

  lemma InsertAllNoGrowth<T(!new)>(acc: seq<T>, xs: seq<T>)
    requires forall x :: x in xs ==> x in acc
    ensures InsertAll(acc, xs) == acc
    decreases |xs|
  {
    if xs != [] {
      InsertAllNoGrowth(acc, xs[..|xs| - 1]);
    }
  }

  /** Removing more elements from a finite set leaves fewer. */
  lemma DiffShrinks<T>(k: set<T>, a: set<T>, b: set<T>)
    requires a <= b
    ensures |k - b| <= |k - a|
  {
    assert k - b <= k - a;
    SubsetCard(k - b, k - a);
  }

  lemma SubsetCard<T>(small: set<T>, big: set<T>)
    requires small <= big
    ensures |small| <= |big|
    decreases |big|
  {
    if small != {} {
      var x :| x in small;
      SubsetCard(small - {x}, big - {x});
    }
  }

  /** A JavaScript `Set<T>`: its elements in the order they were first added. */
  class OrderedSet<T(==,!new)> {
    var items: seq<T>

    ghost predicate Valid()
      reads this
    {
      NoDup(items)
    }

    ghost function Elements(): set<T>
      reads this
    {
      Elems(items)
    }

    /** `new Set()` */
    constructor ()
      ensures Valid() && items == []
    {
      items := [];
    }

    /** `set.has(x)` */
    method Has(x: T) returns (b: bool)
      ensures b <==> x in items
    {
      b := x in items;
    }

    /** `set.add(x)`: appends `x` unless it is already present. */
    method Add(x: T)
      requires Valid()
      modifies this
      ensures Valid()
      ensures items == Insert(old(items), x)
    {
      if x !in items {
        items := items + [x];
      }
    }

    /** `xs.forEach(x => set.add(x))` */
    method AddAll(xs: seq<T>)
      requires Valid()
      modifies this
      ensures Valid()
      ensures items == InsertAll(old(items), xs)
    {
      var j := 0;
      while j < |xs|
        invariant 0 <= j <= |xs|
        invariant Valid()
        invariant items == InsertAll(old(items), xs[..j])
      {
        assert xs[..j + 1][..j] == xs[..j];
        Add(xs[j]);
        j := j + 1;
      }
      assert xs[..j] == xs;
    }
  }
}
