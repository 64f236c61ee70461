/**
 * The two structural comparison helpers of the CHAID test suite,
 * `list_ordered_equal` and `list_unordered_equal`, and what they do and do
 * not establish.
 *
 * Both recurse while both arguments are iterable, pair the items with
 * `zip` and require every pair to be equal, and otherwise fall back to `==`.
 * The unordered helper sorts both sides first, at each level, after the
 * enclosing level has been sorted and paired.
 */
module Compare {
  import opened Values
  import opened PyOrder

  /** `list_ordered_equal(a, b)`. */
  predicate OrderedEqual(a: Nested, b: Nested)
    decreases a
  {
    if a.Seq? && b.Seq? then
      var z := Zip(a.items, b.items);
      forall i :: 0 <= i < |z| ==> OrderedEqual(z[i].0, z[i].1)
    else
      a == b
  }

  /**
   * Python can compare `x` with `y` by `<` without raising `TypeError`,
   * whichever of their items it ends up comparing: both are numbers, or
   * both are lists whose items are pairwise comparable in the same sense.
   */
  predicate Compatible(x: Nested, y: Nested)
    decreases x
  {
    match (x, y)
    case (Leaf(_), Leaf(_)) => true
    case (Seq(xs), Seq(ys)) => forall u, v {:trigger Compatible(u, v)} :: u in xs && v in ys ==> Compatible(u, v)
    case (_, _) => false
  }

  /**
   * `sorted` can be called on `n` and, recursively, on each of its items:
   * every two siblings, at every level, are comparable.
   */
  predicate Sortable(n: Nested) {
    Compatible(n, n)
  }

  /**
   * `list_unordered_equal(a, b)`.  Python's answer where its sorts succeed
   * (on `Sortable` arguments); elsewhere Python raises `TypeError`.
   */
  predicate UnorderedEqual(a: Nested, b: Nested)
    decreases a
  {
    if a.Seq? && b.Seq? then
      var sa := Sort(a.items);
      var sb := Sort(b.items);
      SortedItemsSmaller(a);
      // `all` over `zip(sa, sb)`: the positions both have (see `Values.Zip`)
      forall i :: 0 <= i < |a.items| && i < |b.items| ==> UnorderedEqual(sa[i], sb[i])
    else
      a == b
  }

  // ---------------------------------------------------------------------
  // The fallback to `==`.

  /**
   * When one argument is not iterable both helpers return `a == b`; in
   * particular a scalar never equals a sequence.
   */
  lemma ScalarFallback(a: Nested, b: Nested)
    requires a.Leaf? || b.Leaf?
    ensures OrderedEqual(a, b) <==> a == b
    ensures UnorderedEqual(a, b) <==> a == b
    ensures a.Leaf? != b.Leaf? ==> !OrderedEqual(a, b)
    ensures a.Leaf? && b.Leaf? ==> (OrderedEqual(a, b) <==> a.v == b.v)
  {
  }

  // ---------------------------------------------------------------------
  // `list_ordered_equal`.

  /**
   * Two sequences are ordered-equal exactly when the items at every
   * position both of them have are recursively ordered-equal.
   */
  lemma OrderedEqualPositional(xs: seq<Nested>, ys: seq<Nested>)
    ensures OrderedEqual(Seq(xs), Seq(ys)) <==>
            forall i :: 0 <= i < |xs| && i < |ys| ==> OrderedEqual(xs[i], ys[i])
  {
    var z := Zip(xs, ys);
    if OrderedEqual(Seq(xs), Seq(ys)) {
      forall i | 0 <= i < |xs| && i < |ys| ensures OrderedEqual(xs[i], ys[i]) {
        assert z[i] == (xs[i], ys[i]);
      }
    }
  }

  /** Items beyond the end of the shorter sequence are never inspected. */
  lemma OrderedEqualIgnoresTail(xs: seq<Nested>, ys: seq<Nested>, tail: seq<Nested>)
    requires |xs| <= |ys|
    ensures OrderedEqual(Seq(xs), Seq(ys + tail)) == OrderedEqual(Seq(xs), Seq(ys))
    ensures OrderedEqual(Seq(ys + tail), Seq(xs)) == OrderedEqual(Seq(ys), Seq(xs))
  {
    OrderedEqualPositional(xs, ys + tail);
    OrderedEqualPositional(xs, ys);
    OrderedEqualPositional(ys + tail, xs);
    OrderedEqualPositional(ys, xs);
    assert forall i :: 0 <= i < |xs| ==> (ys + tail)[i] == ys[i];
  }

  /** The empty sequence is ordered- and unordered-equal to every sequence. */
  lemma EmptyMatchesEverySequence(b: Nested)
    requires b.Seq?
    ensures OrderedEqual(Seq([]), b) && OrderedEqual(b, Seq([]))
    ensures UnorderedEqual(Seq([]), b) && UnorderedEqual(b, Seq([]))
  {
  }

  /** A value is ordered-equal to itself (so to any element-wise copy of it). */
  lemma {:induction false} OrderedEqualReflexive(a: Nested)
    ensures OrderedEqual(a, a)
    decreases a
  {
    if a.Seq? {
      forall i | 0 <= i < |a.items| ensures OrderedEqual(a.items[i], a.items[i]) {
        OrderedEqualReflexive(a.items[i]);
      }
      OrderedEqualPositional(a.items, a.items);
    }
  }

  /** Swapping the arguments does not change the answer. */
  lemma {:induction false} OrderedEqualSymmetric(a: Nested, b: Nested)
    ensures OrderedEqual(a, b) == OrderedEqual(b, a)
    decreases a
  {
    if a.Seq? && b.Seq? {
      var xs, ys := a.items, b.items;
      forall i | 0 <= i < |xs| && i < |ys| ensures OrderedEqual(xs[i], ys[i]) == OrderedEqual(ys[i], xs[i]) {
        OrderedEqualSymmetric(xs[i], ys[i]);
      }
      OrderedEqualPositional(xs, ys);
      OrderedEqualPositional(ys, xs);
    }
  }

  /**
   * A sequence is ordered-equal to any extension of itself: length
   * mismatches are never detected.
   */
  lemma OrderedEqualAcceptsExtension(xs: seq<Nested>, tail: seq<Nested>)
    ensures OrderedEqual(Seq(xs), Seq(xs + tail))
  {
    OrderedEqualReflexive(Seq(xs));
    OrderedEqualIgnoresTail(xs, xs, tail);
  }

  /**
   * `a` and `b` have the same length wherever both are sequences, down to
   * every level the helpers reach.
   */
  predicate Aligned(a: Nested, b: Nested)
    decreases a
  {
    a.Seq? && b.Seq? ==>
      |a.items| == |b.items| &&
      forall i :: 0 <= i < |a.items| ==> Aligned(a.items[i], b.items[i])
  }

  /**
   * On aligned arguments `list_ordered_equal` is exactly structural
   * equality.
   */
  lemma {:induction false} OrderedEqualIsEqualityWhenAligned(a: Nested, b: Nested)
    requires Aligned(a, b)
    ensures OrderedEqual(a, b) <==> a == b
    decreases a
  {
    if a.Seq? && b.Seq? {
      var xs, ys := a.items, b.items;
      forall i | 0 <= i < |xs| ensures OrderedEqual(xs[i], ys[i]) <==> xs[i] == ys[i] {
        OrderedEqualIsEqualityWhenAligned(xs[i], ys[i]);
      }
      OrderedEqualPositional(xs, ys);
      if OrderedEqual(a, b) {
        assert xs == ys;
      }
    }
  }

  /** Because of the truncation, ordered-equality is not transitive. */
  lemma OrderedEqualNotTransitive()
    ensures OrderedEqual(Seq([Leaf(1)]), Seq([]))
    ensures OrderedEqual(Seq([]), Seq([Leaf(2)]))
    ensures !OrderedEqual(Seq([Leaf(1)]), Seq([Leaf(2)]))
  {
    OrderedEqualPositional([Leaf(1)], [Leaf(2)]);
  }

  // ---------------------------------------------------------------------
  // `list_unordered_equal`.

  /** Every item of a sortable sequence is sortable. */
  lemma SortableItem(xs: seq<Nested>, e: Nested)
    requires Sortable(Seq(xs)) && e in xs
    ensures Sortable(e)
  {
  }

  /** Every item of a sortable sequence, once sorted, is sortable. */
  lemma SortedItemsSortable(xs: seq<Nested>)
    requires Sortable(Seq(xs))
    ensures |Sort(xs)| == |xs|
    ensures forall i :: 0 <= i < |Sort(xs)| ==> Sort(xs)[i] in xs && Sortable(Sort(xs)[i])
  {
    var s := Sort(xs);
    SortMembers(xs);
    forall i | 0 <= i < |s| ensures Sortable(s[i]) {
      SortableItem(xs, s[i]);
    }
  }

  /** The items of a sorted sequence are smaller than the sequence. */
  lemma SortedItemsSmaller(a: Nested)
    requires a.Seq?
    ensures |Sort(a.items)| == |a.items|
    ensures forall i :: 0 <= i < |Sort(a.items)| ==> Sort(a.items)[i] < a
  {
    SortMembers(a.items);
  }

  /** The unordered helper pairs the sorted items positionally. */
  lemma {:induction false} UnorderedEqualPositional(xs: seq<Nested>, ys: seq<Nested>)
    ensures |Sort(xs)| == |xs| && |Sort(ys)| == |ys|
    ensures UnorderedEqual(Seq(xs), Seq(ys)) <==>
            forall i :: 0 <= i < |xs| && i < |ys| ==> UnorderedEqual(Sort(xs)[i], Sort(ys)[i])
  {
  }

  /** A value is unordered-equal to itself. */
  lemma {:induction false} UnorderedEqualReflexive(a: Nested)
    ensures UnorderedEqual(a, a)
    decreases a
  {
    if a.Seq? {
      var xs := a.items;
      SortMembers(xs);
      UnorderedEqualPositional(xs, xs);
      var s := Sort(xs);
      forall i | 0 <= i < |s| ensures UnorderedEqual(s[i], s[i]) {
        UnorderedEqualReflexive(s[i]);
      }
    }
  }

  /** Swapping the arguments does not change the answer. */
  lemma {:induction false} UnorderedEqualSymmetric(a: Nested, b: Nested)
    ensures UnorderedEqual(a, b) == UnorderedEqual(b, a)
    decreases a
  {
    if a.Seq? && b.Seq? {
      var xs, ys := a.items, b.items;
      SortMembers(xs);
      UnorderedEqualPositional(xs, ys);
      UnorderedEqualPositional(ys, xs);
      var sa, sb := Sort(xs), Sort(ys);
      forall i | 0 <= i < |xs| && i < |ys|
        ensures UnorderedEqual(sa[i], sb[i]) == UnorderedEqual(sb[i], sa[i])
      {
        UnorderedEqualSymmetric(sa[i], sb[i]);
      }
    }
  }

  /** Reordering the items of a sortable sequence keeps it sortable. */
  lemma SortablePermutation(xs: seq<Nested>, ys: seq<Nested>)
    requires Sortable(Seq(xs)) && multiset(xs) == multiset(ys)
    ensures Sortable(Seq(ys))
  {
    forall u, v | u in ys && v in ys ensures Compatible(u, v) {
      assert u in multiset(xs) && v in multiset(xs);
    }
  }

  /**
   * The answer does not depend on the order of the top-level items of
   * either argument, because both are sorted before they are paired.
   */
  lemma UnorderedEqualPermutationInvariant(xs: seq<Nested>, xs': seq<Nested>, b: Nested)
    requires multiset(xs) == multiset(xs')
    ensures UnorderedEqual(Seq(xs), b) == UnorderedEqual(Seq(xs'), b)
    ensures UnorderedEqual(b, Seq(xs)) == UnorderedEqual(b, Seq(xs'))
  {
    SortPermutationInvariant(xs, xs');
    UnorderedEqualSymmetric(Seq(xs), b);
    UnorderedEqualSymmetric(Seq(xs'), b);
  }

  /**
   * On one level of numbers of equal length, the unordered helper is
   * multiset equality.
   */
  lemma UnorderedEqualFlat(xs: seq<Nested>, ys: seq<Nested>)
    requires forall i :: 0 <= i < |xs| ==> xs[i].Leaf?
    requires forall i :: 0 <= i < |ys| ==> ys[i].Leaf?
    requires |xs| == |ys|
    ensures Sortable(Seq(xs)) && Sortable(Seq(ys))
    ensures UnorderedEqual(Seq(xs), Seq(ys)) <==> multiset(xs) == multiset(ys)
  {
    assert Sortable(Seq(xs)) by {
      forall u, v | u in xs && v in xs ensures Compatible(u, v) {
      }
    }
    assert Sortable(Seq(ys)) by {
      forall u, v | u in ys && v in ys ensures Compatible(u, v) {
      }
    }
    UnorderedEqualPositional(xs, ys);
    SortMembers(xs);
    SortMembers(ys);
    var sa, sb := Sort(xs), Sort(ys);
    forall i | 0 <= i < |xs| ensures UnorderedEqual(sa[i], sb[i]) <==> sa[i] == sb[i] {
      assert sa[i] in xs && sb[i] in ys;
    }
    if UnorderedEqual(Seq(xs), Seq(ys)) {
      assert forall i :: 0 <= i < |xs| && i < |ys| ==> UnorderedEqual(Sort(xs)[i], Sort(ys)[i]);
      forall i | 0 <= i < |xs| ensures sa[i] == sb[i] {
        assert i < |ys|;
        assert UnorderedEqual(Sort(xs)[i], Sort(ys)[i]);
      }
      assert sa == sb;
      SortPermutes(xs);
      SortPermutes(ys);
    }
    if multiset(xs) == multiset(ys) {
      SortPermutationInvariant(xs, ys);
    }
  }

  /** Two lists of two numbers each, as `[[2, 1], [1, 3]]` and `[[1, 2], [1, 3]]`. */
  function Pair(m: int, n: int): Nested {
    Seq([Leaf(m), Leaf(n)])
  }

  lemma PairSortable(m: int, n: int)
    ensures Sortable(Pair(m, n))
  {
    assert forall u, v :: u in Pair(m, n).items && v in Pair(m, n).items ==> u.Leaf? && v.Leaf?;
  }

  lemma PairsSortable(a: int, b: int, c: int, d: int)
    ensures Sortable(Seq([Pair(a, b), Pair(c, d)]))
  {
    var p, q := Pair(a, b), Pair(c, d);
    PairSortable(a, b);
    PairSortable(c, d);
    forall u, v | u in [p, q] && v in [p, q] ensures Compatible(u, v) {
      assert u.Seq? && v.Seq?;
      assert forall e :: e in u.items ==> e.Leaf?;
      assert forall e :: e in v.items ==> e.Leaf?;
    }
  }

  lemma SortTwoNumbers(m: int, n: int)
    requires m <= n
    ensures Sort(Pair(m, n).items) == Pair(m, n).items
  {
    SortOfSorted(Pair(m, n).items);
  }

  lemma SortCounterexampleLeft()
    ensures Sort([Pair(2, 1), Pair(1, 3)]) == [Pair(1, 3), Pair(2, 1)]
  {
    var p, q := Pair(2, 1), Pair(1, 3);
    assert FirstDiff(q.items, p.items) == 0;
    assert Less(q, p);
    SortOfSorted([q, p]);
    SortPermutationInvariant([p, q], [q, p]);
  }

  lemma SortCounterexampleRight()
    ensures Sort([Pair(1, 2), Pair(1, 3)]) == [Pair(1, 2), Pair(1, 3)]
  {
    var r, q := Pair(1, 2), Pair(1, 3);
    FirstDiffIs(r.items, q.items, 1);
    assert Less(r, q);
    SortOfSorted([r, q]);
  }

  /** `[1, 3]` and `[1, 2]` are unordered-unequal: they hold different numbers. */
  lemma PairsDiffer(q: Nested, r: Nested)
    requires q == Pair(1, 3) && r == Pair(1, 2)
    ensures Sortable(q) && Sortable(r)
    ensures !UnorderedEqual(q, r)
  {
    UnorderedEqualFlat(q.items, r.items);
    assert multiset(q.items)[Leaf(3)] == 1;
    assert multiset(r.items)[Leaf(3)] == 0;
  }

  /** The counterexample's outer sorts put `[1, 3]` against `[1, 2]`. */
  lemma CounterexampleUnequal(a: Nested, b: Nested)
    requires a == Seq([Pair(2, 1), Pair(1, 3)]) && b == Seq([Pair(1, 2), Pair(1, 3)])
    ensures !UnorderedEqual(a, b)
  {
    SortCounterexampleLeft();
    SortCounterexampleRight();
    PairsDiffer(Pair(1, 3), Pair(1, 2));
    UnorderedEqualPositional(a.items, b.items);
    assert Sort(a.items)[0] == Pair(1, 3) && Sort(b.items)[0] == Pair(1, 2);
  }

  lemma CounterexampleSameInnerLists(a: Nested, b: Nested)
    requires a == Seq([Pair(2, 1), Pair(1, 3)]) && b == Seq([Pair(1, 2), Pair(1, 3)])
    ensures multiset(a.items[0].items) == multiset(b.items[0].items)
    ensures a.items[1] == b.items[1]
  {
  }

  /**
   * The unordered helper is not equality of multisets of multisets: the
   * inner lists are paired after the outer level was sorted, so
   * `[[2, 1], [1, 3]]` and `[[1, 2], [1, 3]]`, which hold the same
   * unordered inner lists, compare unequal.
   */
  lemma UnorderedEqualNotDeepMultisetEquality(a: Nested, b: Nested)
    requires a == Seq([Pair(2, 1), Pair(1, 3)]) && b == Seq([Pair(1, 2), Pair(1, 3)])
    ensures Sortable(a) && Sortable(b)
    ensures multiset(a.items[0].items) == multiset(b.items[0].items)
    ensures a.items[1] == b.items[1]
    ensures !UnorderedEqual(a, b)
  {
    PairsSortable(2, 1, 1, 3);
    PairsSortable(1, 2, 1, 3);
    CounterexampleSameInnerLists(a, b);
    CounterexampleUnequal(a, b);
  }
}
