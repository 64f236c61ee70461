/**
 * The lazy construction of a CHAID tree, as the test suite observes it.
 *
 * A tree is created over a predictor matrix and a response vector with its
 * node store (`tree_store`) not yet built.  Iterating over the tree, looking
 * a node up, or asking for the build explicitly all leave the store built.
 * The recursive split search that produces the nodes is not part of this
 * model: it is the `grow` function the tree is constructed with, so the
 * store, once built, is whatever that search yields for the tree's data.
 */
module ChaidTree {
  import opened Values

  /**
   * One node of the built tree, by its stable id (the argument of
   * `get_node`).  What else a node holds (its parent, its rows, its split)
   * is produced by the split search and is not part of this model.
   */
  datatype TreeNode = TreeNode(nodeId: nat)

  /** The first node of `store` with id `nodeId`, if there is one. */
  function FindNode(store: seq<TreeNode>, nodeId: nat): (r: Option<TreeNode>)
    ensures r.Some? ==> r.value in store && r.value.nodeId == nodeId
    ensures r.None? <==> forall i :: 0 <= i < |store| ==> store[i].nodeId != nodeId
  {
    if store == [] then None
    else if store[0].nodeId == nodeId then Some(store[0])
    else FindNode(store[1..], nodeId)
  }

  class Tree {
    const matrix: seq<seq<int>>
    const observed: seq<int>
    /** The recursive split search, outside this model. */
    const grow: (seq<seq<int>>, seq<int>) -> seq<TreeNode>

    /** `tree_store`: `None` until the tree is built. */
    var treeStore: Option<seq<TreeNode>>
    /** How many times the split search has been run. */
    ghost var builds: nat

    /** The store the build produces for this tree's data. */
    function Grown(): seq<TreeNode>
      reads this
    {
      grow(matrix, observed)
    }

    /**
     * The store is either absent and nothing was built, or holds the
     * search's result and was built exactly once.
     */
    ghost predicate Valid()
      reads this
    {
      && (treeStore.None? <==> builds == 0)
      && builds <= 1
      && (treeStore.Some? ==> treeStore.value == Grown())
    }

    /** `CHAID(ndarr, arr)`: nothing is computed yet. */
    constructor (matrix: seq<seq<int>>, observed: seq<int>,
                 grow: (seq<seq<int>>, seq<int>) -> seq<TreeNode>)
      ensures Valid()
      ensures this.matrix == matrix && this.observed == observed && this.grow == grow
      ensures treeStore == None && builds == 0
    {
      this.matrix := matrix;
      this.observed := observed;
      this.grow := grow;
      treeStore := None;
      builds := 0;
    }

    /**
     * `build_tree()`: afterwards the store holds the search's result; a
     * tree already built is left as it is.
     */
    method BuildTree()
      requires Valid()
      modifies this`treeStore, this`builds
      ensures Valid()
      ensures treeStore == Some(Grown())
      ensures builds == 1
      ensures old(treeStore).Some? ==> treeStore == old(treeStore) && builds == old(builds)
    {
      if treeStore.None? {
        treeStore := Some(grow(matrix, observed));
        builds := builds + 1;
      }
    }

    /** `__iter__()`: builds the tree if needed and yields its nodes in store order. */
    method Iter() returns (nodes: seq<TreeNode>)
      requires Valid()
      modifies this`treeStore, this`builds
      ensures Valid()
      ensures treeStore == Some(nodes) && nodes == Grown()
      ensures builds == 1
      ensures old(treeStore).Some? ==> treeStore == old(treeStore) && builds == old(builds)
    {
      BuildTree();
      nodes := treeStore.value;
    }

    /**
     * `get_node(node_id)`: builds the tree if needed and looks the node up
     * by its id; `None` when the built tree has no node with that id.
     */
    method GetNode(nodeId: nat) returns (node: Option<TreeNode>)
      requires Valid()
      modifies this`treeStore, this`builds
      ensures Valid()
      ensures treeStore == Some(Grown())
      ensures node == FindNode(Grown(), nodeId)
      ensures builds == 1
      ensures old(treeStore).Some? ==> treeStore == old(treeStore) && builds == old(builds)
    {
      BuildTree();
      node := FindNode(treeStore.value, nodeId);
    }
  }

  /**
   * The three lazy-loading checks: on a freshly constructed tree, each of
   * `__iter__()`, `get_node(0)` and `build_tree()` leaves `tree_store`
   * populated, and every later access reuses the one build.
   */
  method LazyBuild(matrix: seq<seq<int>>, observed: seq<int>,
                   grow: (seq<seq<int>>, seq<int>) -> seq<TreeNode>)
    returns (byIter: Tree, byGetNode: Tree, byBuild: Tree)
    ensures byIter.treeStore.Some? && byGetNode.treeStore.Some? && byBuild.treeStore.Some?
    ensures byIter.treeStore == byGetNode.treeStore == byBuild.treeStore == Some(grow(matrix, observed))
    ensures byIter.builds == 1 && byGetNode.builds == 1 && byBuild.builds == 1
  {
    byIter := new Tree(matrix, observed, grow);
    assert byIter.treeStore == None;
    var nodes := byIter.Iter();

    byGetNode := new Tree(matrix, observed, grow);
    assert byGetNode.treeStore == None;
    var node := byGetNode.GetNode(0);

    byBuild := new Tree(matrix, observed, grow);
    assert byBuild.treeStore == None;
    byBuild.BuildTree();
    // a second access does not build again
    byBuild.BuildTree();
  }
}
