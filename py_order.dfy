/**
 * Python's ordering of integers and lists, and Python's `sorted`, on
 * nested values.
 *
 * Python compares two lists by looking for the first position at which
 * their items differ (using `==`); if there is none, the shorter list is
 * the smaller one, otherwise the two items at that position decide.
 * Comparing an integer with a list raises `TypeError` in Python; this model
 * orders every leaf before every sequence so that the order is total, and
 * the comparison helpers only use it on inputs where Python never makes
 * such a comparison (see `Compare.Sortable`).
 */
module PyOrder {
  import opened Values

  /**
   * The first index at which `xs` and `ys` differ, or the length of the
   * shorter one when one is a prefix of the other.
   */
  function FirstDiff<T(==)>(xs: seq<T>, ys: seq<T>): (k: nat)
    ensures k <= |xs| && k <= |ys|
    ensures forall i :: 0 <= i < k ==> xs[i] == ys[i]
    ensures k < |xs| && k < |ys| ==> xs[k] != ys[k]
    decreases |xs|
  {
    if xs == [] || ys == [] || xs[0] != ys[0] then 0
    else 1 + FirstDiff(xs[1..], ys[1..])
  }

  /** Python's `x < y` (extended with leaf < sequence). */
  predicate Less(x: Nested, y: Nested)
    decreases x
  {
    match (x, y)
    case (Leaf(u), Leaf(v)) => u < v
    case (Leaf(_), Seq(_)) => true
    case (Seq(_), Leaf(_)) => false
    case (Seq(xs), Seq(ys)) =>
      var k := FirstDiff(xs, ys);
      if k == |xs| || k == |ys| then |xs| < |ys|
      else Less(xs[k], ys[k])
  }

  /** `x <= y`: `sorted` puts `x` before `y` or they are equal. */
  predicate Le(x: Nested, y: Nested) {
    x == y || Less(x, y)
  }

  /** Every element is at most every later element. */
  predicate Sorted(s: seq<Nested>) {
    forall i, j :: 0 <= i < j < |s| ==> Le(s[i], s[j])
  }

  // ---------------------------------------------------------------------
  // `Less` is a strict total order.

  lemma FirstDiffIs<T>(xs: seq<T>, ys: seq<T>, k: nat)
    requires k <= |xs| && k <= |ys|
    requires forall i :: 0 <= i < k ==> xs[i] == ys[i]
    requires k < |xs| && k < |ys| ==> xs[k] != ys[k]
    ensures FirstDiff(xs, ys) == k
    decreases k
  {
    if k > 0 {
      FirstDiffIs(xs[1..], ys[1..], k - 1);
    }
  }

  lemma FirstDiffSymmetric<T>(xs: seq<T>, ys: seq<T>)
    ensures FirstDiff(xs, ys) == FirstDiff(ys, xs)
  {
    FirstDiffIs(ys, xs, FirstDiff(xs, ys));
  }

  lemma LessIrreflexive(x: Nested)
    ensures !Less(x, x)
  {
  }

  lemma {:induction false} LessAsymmetric(x: Nested, y: Nested)
    requires Less(x, y)
    ensures !Less(y, x)
    decreases x
  {
    match (x, y)
    case (Leaf(_), Leaf(_)) =>
    case (Leaf(_), Seq(_)) =>
    case (Seq(xs), Seq(ys)) =>
      var k := FirstDiff(xs, ys);
      FirstDiffSymmetric(xs, ys);
      if k < |xs| && k < |ys| {
        LessAsymmetric(xs[k], ys[k]);
      }
  }

  lemma {:induction false} LessTotal(x: Nested, y: Nested)
    requires x != y
    ensures Less(x, y) || Less(y, x)
    decreases x
  {
    match (x, y)
    case (Leaf(_), Leaf(_)) =>
    case (Leaf(_), Seq(_)) =>
    case (Seq(_), Leaf(_)) =>
    case (Seq(xs), Seq(ys)) =>
      var k := FirstDiff(xs, ys);
      FirstDiffSymmetric(xs, ys);
      assert k == |xs| == |ys| ==> xs == ys;
      if k < |xs| && k < |ys| {
        LessTotal(xs[k], ys[k]);
      }
  }

  lemma {:induction false} LessTransitive(x: Nested, y: Nested, z: Nested)
    requires Less(x, y) && Less(y, z)
    ensures Less(x, z)
    decreases x
  {
    match (x, y, z)
    case (Leaf(_), Leaf(_), Leaf(_)) =>
    case (Leaf(_), Leaf(_), Seq(_)) =>
    case (Leaf(_), Seq(_), Seq(_)) =>
    case (Seq(xs), Seq(ys), Seq(zs)) =>
      var k1 := FirstDiff(xs, ys);
      var k2 := FirstDiff(ys, zs);
      if k1 < k2 {
        // x and y part at k1, where y and z still agree
        FirstDiffIs(xs, zs, k1);
      } else if k2 < k1 {
        // y and z part at k2, where x and y still agree
        FirstDiffIs(xs, zs, k2);
      } else {
        var k := k1;
        if k == |xs| || k == |ys| {
          FirstDiffIs(xs, zs, k);
        } else {
          LessTransitive(xs[k], ys[k], zs[k]);
          if xs[k] == zs[k] {
            LessAsymmetric(xs[k], ys[k]);
          }
          FirstDiffIs(xs, zs, k);
        }
      }
  }

  lemma LeAntisymmetric(x: Nested, y: Nested)
    requires Le(x, y) && Le(y, x)
    ensures x == y
  {
    if x != y {
      LessAsymmetric(x, y);
    }
  }

  lemma LeTransitive(x: Nested, y: Nested, z: Nested)
    requires Le(x, y) && Le(y, z)
    ensures Le(x, z)
  {
    if x != y && y != z {
      LessTransitive(x, y, z);
    }
  }

  // ---------------------------------------------------------------------
  // `sorted`: the unique sorted permutation.

  /** Inserts `x` before the first element it is at most. */
  function Insert(x: Nested, s: seq<Nested>): (r: seq<Nested>)
    ensures |r| == |s| + 1
    decreases |s|
  {
    if s == [] then [x]
    else if Le(x, s[0]) then [x] + s
    else [s[0]] + Insert(x, s[1..])
  }

  /** Inserting adds `x` and keeps every element. */
  lemma {:induction false} InsertPermutes(x: Nested, s: seq<Nested>)
    ensures multiset(Insert(x, s)) == multiset(s) + multiset{x}
    decreases |s|
  {
    if s != [] && !Le(x, s[0]) {
      InsertPermutes(x, s[1..]);
      assert s == [s[0]] + s[1..];
    }
  }

  lemma InsertMember(x: Nested, s: seq<Nested>, e: Nested)
    requires e in Insert(x, s)
    ensures e == x || e in s
  {
    InsertPermutes(x, s);
    assert e in multiset(Insert(x, s));
  }

  lemma {:induction false} InsertSorted(x: Nested, s: seq<Nested>)
    requires Sorted(s)
    ensures Sorted(Insert(x, s))
    decreases |s|
  {
    if s == [] {
    } else if Le(x, s[0]) {
      var r := [x] + s;
      forall i, j | 0 <= i < j < |r| ensures Le(r[i], r[j]) {
        if i == 0 {
          LeTransitive(x, s[0], s[j - 1]);
        }
      }
    } else {
      LessTotal(x, s[0]);
      var rest := Insert(x, s[1..]);
      InsertSorted(x, s[1..]);
      var r := [s[0]] + rest;
      assert Insert(x, s) == r;
      forall i, j | 0 <= i < j < |r| ensures Le(r[i], r[j]) {
        if i == 0 {
          var e := rest[j - 1];
          InsertMember(x, s[1..], e);
          if e != x {
            var m :| 0 <= m < |s[1..]| && s[1..][m] == e;
            assert s[m + 1] == e;
          }
        }
      }
    }
  }

  /** Python's `sorted(xs)`, as an insertion sort. */
  function Sort(xs: seq<Nested>): (r: seq<Nested>)
    ensures |r| == |xs|
    decreases |xs|
  {
    if xs == [] then []
    else Insert(xs[0], Sort(xs[1..]))
  }

  /** `sorted(xs)` is a permutation of `xs` ... */
  lemma {:induction false} SortPermutes(xs: seq<Nested>)
    ensures multiset(Sort(xs)) == multiset(xs)
    decreases |xs|
  {
    if xs != [] {
      SortPermutes(xs[1..]);
      InsertPermutes(xs[0], Sort(xs[1..]));
      assert xs == [xs[0]] + xs[1..];
    }
  }

  /** ... in ascending order. */
  lemma {:induction false} SortSorted(xs: seq<Nested>)
    ensures Sorted(Sort(xs))
    decreases |xs|
  {
    if xs != [] {
      SortSorted(xs[1..]);
      InsertSorted(xs[0], Sort(xs[1..]));
    }
  }

  /** Every item of the sorted sequence is an item of the input. */
  lemma SortMembers(xs: seq<Nested>)
    ensures |Sort(xs)| == |xs|
    ensures forall i :: 0 <= i < |Sort(xs)| ==> Sort(xs)[i] in xs
  {
    var r := Sort(xs);
    SortPermutes(xs);
    forall i | 0 <= i < |r| ensures r[i] in xs {
      assert r[i] in multiset(r);
    }
  }

  lemma SortedHeadLeast(s: seq<Nested>, e: Nested)
    requires Sorted(s) && e in s
    ensures Le(s[0], e)
  {
    var j :| 0 <= j < |s| && s[j] == e;
    if j > 0 {
      assert Le(s[0], s[j]);
    }
  }

  lemma {:induction false} SortedUnique(s: seq<Nested>, t: seq<Nested>)
    requires Sorted(s) && Sorted(t)
    requires multiset(s) == multiset(t)
    ensures s == t
    decreases |s|
  {
    assert |s| == |multiset(s)| == |multiset(t)| == |t|;
    if s != [] {
      assert s[0] in multiset(t) && t[0] in multiset(s);
      SortedHeadLeast(t, s[0]);
      SortedHeadLeast(s, t[0]);
      LeAntisymmetric(s[0], t[0]);
      assert s == [s[0]] + s[1..];
      assert t == [t[0]] + t[1..];
      assert multiset(s[1..]) == multiset(s) - multiset{s[0]};
      assert multiset(t[1..]) == multiset(t) - multiset{t[0]};
      assert Sorted(s[1..]) && Sorted(t[1..]) by {
        forall i, j | 0 <= i < j < |s| - 1 ensures Le(s[1..][i], s[1..][j]) {
          assert Le(s[i + 1], s[j + 1]);
        }
        forall i, j | 0 <= i < j < |t| - 1 ensures Le(t[1..][i], t[1..][j]) {
          assert Le(t[i + 1], t[j + 1]);
        }
      }
      SortedUnique(s[1..], t[1..]);
    }
  }

  /** The result of `sorted` depends only on the multiset of its input. */
  lemma SortPermutationInvariant(xs: seq<Nested>, ys: seq<Nested>)
    requires multiset(xs) == multiset(ys)
    ensures Sort(xs) == Sort(ys)
  {
    SortSorted(xs);
    SortSorted(ys);
    SortPermutes(xs);
    SortPermutes(ys);
    SortedUnique(Sort(xs), Sort(ys));
  }

  /** Sorting a sorted sequence returns it unchanged. */
  lemma SortOfSorted(s: seq<Nested>)
    requires Sorted(s)
    ensures Sort(s) == s
  {
    SortSorted(s);
    SortPermutes(s);
    SortedUnique(Sort(s), s);
  }
}
