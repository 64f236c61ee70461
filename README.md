# CHAID test-suite contracts in Dafny

This project models the part of the CHAID repository whose behaviour can be
stated exactly from its test suite: the suite's two nested-list comparison
helpers, and two small state contracts that the tests assert about the
library.

- `list_ordered_equal(a, b)` and `list_unordered_equal(a, b)`
  (tests/test_tree.py). When both arguments are iterable, each helper pairs
  their items with `zip` and requires every pair to be recursively equal.
  The unordered helper `sorted`s both sides first. Otherwise each helper
  returns `a == b`. Values are `Values.Nested`: an integer leaf or a
  sequence of values. Python's list ordering is `PyOrder.Less`, and
  `sorted` is `PyOrder.Sort`. It is proved to return the unique sorted
  permutation.
- The lazy tree build (`ChaidTree.Tree`). A tree is constructed with
  `tree_store` unset. `__iter__`, `get_node` and `build_tree` each leave it
  holding the result of the split search.
- The column naming of a split (`ChaidSplit.Split`). A new split reports
  `str(column_id)` as its column. `name_columns(names)` replaces that with
  `names[column_id]` and touches nothing else.

Modules: `Values` (the value type and `zip`), `PyOrder` (Python's ordering
and `sorted`), `Compare` (the two helpers), `ChaidTree`, `ChaidSplit`.

The docstring of `list_ordered_equal` (tests/test_tree.py:20) says
"unordered". The code compares positionally, and the model follows the
code.

## Model

| member | source | states |
|---|---|---|
| Compare.OrderedEqual | tests/test_tree.py:19-24 | `list_ordered_equal`: two sequences are compared item by item over `zip`, anything else by `==`; its properties are the `Compare.OrderedEqual…` lemmas and `Compare.ScalarFallback` |
| Compare.UnorderedEqual | tests/test_tree.py:9-16 | `list_unordered_equal`: two sequences are both sorted, then compared item by item over `zip`, anything else by `==`; its properties are the `Compare.UnorderedEqual…` lemmas and `Compare.ScalarFallback` |
| PyOrder.Less | tests/test_tree.py:12-13 | Python's `<` as `sorted` uses it: numbers by value, lists by the first differing position, a proper prefix before the longer list; leaves before sequences outside Python's domain. `PyOrder.LessAsymmetric`, `LessTotal` and `LessTransitive` make it a strict total order |
| PyOrder.Sort | tests/test_tree.py:12-13 | `sorted`, as an insertion sort, of the same length as its input; `PyOrder.SortPermutes`, `SortSorted` and `SortedUnique` show it is the one sorted permutation |
| Compare.Compatible | tests/test_tree.py:12-13 | `x < y` can be evaluated by Python, at whatever depth the comparison descends, without a `TypeError`: both numbers, or both lists whose items are pairwise compatible |
| Compare.Sortable | tests/test_tree.py:12-14 | every two items at every level are compatible: a sufficient condition for every `sorted` call of `list_unordered_equal` to succeed |
| Values.Zip | tests/test_tree.py:14 | `zip` yields the pairs at equal positions and is as long as the shorter argument |
| PyOrder.FirstDiff | tests/test_tree.py:12-13 | the first position where two lists differ; they agree before it, and differ at it unless one list ends there |
| PyOrder.LessAsymmetric | tests/test_tree.py:12-13 | Python's list `<` is asymmetric |
| PyOrder.LessTotal | tests/test_tree.py:12-13 | any two different values are ordered one way or the other |
| PyOrder.LessTransitive | tests/test_tree.py:12-13 | Python's list `<` is transitive |
| PyOrder.InsertPermutes | tests/test_tree.py:12-13 | insertion adds exactly the inserted item to the multiset of items |
| PyOrder.InsertSorted | tests/test_tree.py:12-13 | inserting into a sorted sequence keeps it sorted |
| PyOrder.SortPermutes | tests/test_tree.py:12-13 | `sorted(xs)` is a permutation of `xs` |
| PyOrder.SortSorted | tests/test_tree.py:12-13 | `sorted(xs)` is in ascending order |
| PyOrder.SortMembers | tests/test_tree.py:12-13 | every item of `sorted(xs)` is an item of `xs`, and the lengths agree |
| PyOrder.SortedUnique | tests/test_tree.py:12-13 | two sorted sequences with the same items are equal |
| PyOrder.SortPermutationInvariant | tests/test_tree.py:12-13 | `sorted` gives the same result on any two orderings of the same items |
| PyOrder.SortOfSorted | tests/test_tree.py:12-13 | `sorted` returns a sorted input unchanged |
| Compare.ScalarFallback | tests/test_tree.py:11-24 | when either argument is a leaf, both helpers return exactly `a == b`; a leaf never equals a sequence |
| Compare.OrderedEqualPositional | tests/test_tree.py:21-22 | two sequences are ordered-equal iff the items at every position both have are recursively ordered-equal |
| Compare.OrderedEqualIgnoresTail | tests/test_tree.py:22 | items past the end of the shorter sequence never affect the answer |
| Compare.EmptyMatchesEverySequence | tests/test_tree.py:14-22 | either helper accepts the empty sequence against any sequence, in both argument orders; this is why the checks against `[]` at lines 45 and 66 pass whatever the surrogates are, provided Python can sort them |
| Compare.OrderedEqualReflexive | tests/test_tree.py:19-24 | every value is ordered-equal to itself, so an element-wise copy passes, as the side-effect checks at lines 41-42 need |
| Compare.OrderedEqualSymmetric | tests/test_tree.py:22 | swapping the arguments of the ordered helper does not change its answer |
| Compare.OrderedEqualAcceptsExtension | tests/test_tree.py:22 | a sequence is ordered-equal to any extension of itself |
| Compare.OrderedEqualIsEqualityWhenAligned | tests/test_tree.py:21-24 | when lengths agree at every level, the ordered helper is exactly structural equality, in both directions |
| Compare.OrderedEqualNotTransitive | tests/test_tree.py:22 | `[1]` matches `[]` and `[]` matches `[2]`, but `[1]` does not match `[2]` |
| Compare.SortableItem | tests/test_tree.py:12-13 | every item of a list Python can sort is itself sortable |
| Compare.SortedItemsSortable | tests/test_tree.py:12-14 | the recursive calls on sorted items stay where Python's sorts succeed |
| Compare.UnorderedEqualReflexive | tests/test_tree.py:12-16 | every value is unordered-equal to itself |
| Compare.UnorderedEqualSymmetric | tests/test_tree.py:12-14 | swapping the arguments of the unordered helper does not change its answer |
| Compare.SortablePermutation | tests/test_tree.py:12-13 | reordering a sortable list keeps it sortable |
| Compare.UnorderedEqualPermutationInvariant | tests/test_tree.py:12-14 | permuting the top-level items of either argument does not change the unordered helper's answer |
| Compare.UnorderedEqualFlat | tests/test_tree.py:12-16 | on two flat lists of numbers with equal length, the unordered helper is multiset equality, in both directions |
| Compare.UnorderedEqualNotDeepMultisetEquality | tests/test_tree.py:12-14 | `[[2, 1], [1, 3]]` and `[[1, 2], [1, 3]]` are sortable and have the same unordered inner lists, yet the helper rejects them, because inner lists are paired only after the outer sort |
| ChaidTree.Tree.constructor | tests/test_tree.py:107-112 | a new tree holds its data, and `tree_store` is unset, with nothing built |
| ChaidTree.Tree.BuildTree | tests/test_tree.py:124-127 | afterwards `tree_store` holds the split search's result; an already-built tree is left as it is, so the search runs once |
| ChaidTree.Tree.Iter | tests/test_tree.py:114-117 | iterating builds the tree if needed and yields the stored nodes |
| ChaidTree.FindNode | tests/test_tree.py:121 | the lookup by id finds a node of the store with that id, and finds nothing exactly when no node has it |
| ChaidTree.Tree.GetNode | tests/test_tree.py:119-122 | a lookup builds the tree if needed and returns the store's node with that id, or nothing when the built tree has no such node |
| ChaidTree.LazyBuild | tests/test_tree.py:105-127 | on fresh trees, each of `__iter__`, `get_node(0)` and `build_tree()` leaves `tree_store` populated with the same result, each after exactly one build, and a second `build_tree()` reuses the first |
| ChaidSplit.DecimalString | tests/test_split.py:15 | `str(n)` is a non-empty string of digits with no leading zero |
| ChaidSplit.ParseDecimalString | tests/test_split.py:15 | `int(str(n)) == n` |
| ChaidSplit.DecimalStringInjective | tests/test_split.py:14-15 | different column ids get different default names |
| ChaidSplit.Split.constructor | tests/test_split.py:12-15 | a new split keeps its arguments, and its column is `str(column_id)` |
| ChaidSplit.Split.NameColumns | tests/test_split.py:16-17 | `column` becomes `names[column_id]` when that entry exists; otherwise nothing changes. `column_id` and every other split are untouched |
| ChaidSplit.ColumnNameMappings | tests/test_split.py:8-17 | for each id `0..len(names)-1` the split reports `str(id)` until its own `name_columns` call and `names[id]` afterwards, even after earlier splits were named |

## Left out

- The CHAID split search, category merging, surrogates and tree recursion (tests/test_tree.py:27-102) are not modelled. Their code is not part of this model, and they rest on chi-square statistics and p-values, which are floating point from a foreign library. The tree takes the search as its `grow` parameter.
- numpy arrays, `reshape`, `.copy()` and `collections.Iterable` duck typing are not modelled. Values are the `Nested` datatype over integer leaves, so float categories such as `[[1.0], [2.0]]` appear as integers.
- Strings as leaves are not modelled. A Python string is iterable of itself, so the helpers would recurse forever on one.
- Compare.UnorderedEqual: Python raises `TypeError` when `sorted` has to compare a number with a list. The model instead orders every leaf before every sequence, so it returns an answer on such inputs. `Compare.Sortable` is a sufficient condition for Python's sorts to succeed, not a necessary one: `zip` can drop an item before it is ever sorted, as in `[[1, 2], [3, [4]]]` against `[[1, 2]]`. Wherever Python does not raise, every comparison its sort made is one on which `PyOrder.Less` agrees with Python, and a deterministic sort that sees the same answers as under the total order `PyOrder.Less` returns that order's unique sorted permutation; so the model's answer is Python's there. This argument is not itself proved in the model.
- Python's `sorted` is stable. The model sorts by insertion, which gives the same result: the order is total, so the sorted permutation is unique (`PyOrder.SortedUnique`).
- ChaidTree.Tree.GetNode: the library's behaviour for an id that no node has is not part of this model (the tests only look up id 0). The model returns `None` there, which is an assumption.
- ChaidTree.Tree.BuildTree: the tests only observe that the store is populated. The model's choice to build only when the store is unset is an assumption about the library.
- ChaidSplit.Split.NameColumns: the library's behaviour when `names` has no entry at `column_id` is not part of this model (the tests always pass enough names). Indexing a Python list there would raise `IndexError`; the model leaves the column unchanged and returns `false`, which is an assumption.
- ChaidSplit.Split.constructor: the names and types of the second to fourth arguments (`splits`, `split_map`, `score`) are assumptions. The tests pass `None`, `None` and `1`. A `None` column id is not modelled.
- Python 3.10 and later no longer provide `collections.Iterable`, so there both helpers raise `AttributeError` before comparing anything. The model describes the helpers on the Python versions that still have it.
- A tree node's contents other than its id (parent, rows, split) are not modelled; no contract reads them.
- The internals of `tree_store` beyond "built / not built" are not modelled. Neither are the library's own input checks, the `unittest` plumbing or the `setup_tests` import.
