/**
 * api/timecell/Traversal.kt: flattening and the node-keyed map of the
 * earlier cell type. The draft cell is a Kotlin data class, so map keys
 * compare by value: equal subtrees share one entry.
 */
module DraftTraversal {
  import TreeCell
  import opened DraftTimeCell

  /** `traversRec`: appends exactly the node's flattening to the list it is given, and returns it. */
  function TraversRec(node: DraftCell, list: seq<DraftCell>, order: TreeCell.TraversalType): (r: seq<DraftCell>)
    ensures r == list + TreeCell.Flatten(node, order)
    decreases node, 1
  {
    var l1 := if order == TreeCell.Preorder then list + [node] else list;
    var l2 := TraversRecAll(node.children, l1, order);
    var f := TreeCell.FlattenAll(node.children, order);
    assert list + [node] + f == list + ([node] + f);
    assert list + f + [node] == list + (f + [node]);
    if order == TreeCell.Postorder then l2 + [node] else l2
  }

  /** The `forEach` over the children in `traversRec`. */
  function TraversRecAll(ts: seq<DraftCell>, list: seq<DraftCell>, order: TreeCell.TraversalType): (r: seq<DraftCell>)
    ensures r == list + TreeCell.FlattenAll(ts, order)
    decreases ts, 0
  {
    if ts == [] then list
    else
      assert list + TreeCell.Flatten(ts[0], order) + TreeCell.FlattenAll(ts[1..], order)
          == list + TreeCell.FlattenAll(ts, order);
      TraversRecAll(ts[1..], TraversRec(ts[0], list, order), order)
  }

  /**
   * `flatten`: the generic flattening, so every node is listed with its
   * subtree directly after it (preorder) or directly before it (postorder).
   */
  function Flatten(t: DraftCell, order: TreeCell.TraversalType): (r: seq<DraftCell>)
    ensures r == TreeCell.Flatten(t, order)
    ensures order == TreeCell.Preorder ==> TreeCell.SubtreeFollows(r)
    ensures order == TreeCell.Postorder ==> TreeCell.SubtreePrecedes(r)
  {
    TreeCell.PreorderListsNodeBeforeDescendants(t);
    TreeCell.PostorderListsNodeAfterDescendants(t);
    TraversRec(t, [], order)
  }

  /** Every entry of the map is a node together with its own children. */
  ghost predicate ChildrenEntries(m: map<DraftCell, seq<DraftCell>>)
  {
    forall k :: k in m ==> m[k] == k.children
  }

  /**
   * `mapRec`: record each listed node under itself, with its children as the
   * value. It adds exactly the listed nodes of the subtree's flattening, and
   * a map of nodes to their own children stays one.
   */
  function MapRec(node: DraftCell, m: map<DraftCell, seq<DraftCell>>, unTrimmed: bool): (r: map<DraftCell, seq<DraftCell>>)
    ensures forall k :: k in r <==>
      k in m || (k in TreeCell.Flatten(node, TreeCell.Preorder) && TreeCell.Listed(k, unTrimmed))
    ensures ChildrenEntries(m) ==> ChildrenEntries(r)
    decreases node, 1
  {
    var m1 := if unTrimmed || (!unTrimmed && |node.children| > 0) then m[node := node.children] else m;
    MapRecAll(node.children, m1, unTrimmed)
  }

  /** The `forEach` over the children in `mapRec`. */
  function MapRecAll(ts: seq<DraftCell>, m: map<DraftCell, seq<DraftCell>>, unTrimmed: bool): (r: map<DraftCell, seq<DraftCell>>)
    ensures forall k :: k in r <==>
      k in m || (k in TreeCell.FlattenAll(ts, TreeCell.Preorder) && TreeCell.Listed(k, unTrimmed))
    ensures ChildrenEntries(m) ==> ChildrenEntries(r)
    decreases ts, 0
  {
    if ts == [] then m else MapRecAll(ts[1..], MapRec(ts[0], m, unTrimmed), unTrimmed)
  }

  /**
   * `toMap(unTrimmed)`: the keys are the nodes of the tree (all of them when
   * `unTrimmed`, only those with children otherwise), each mapped to its
   * children.
   */
  function ToMap(t: DraftCell, unTrimmed: bool): (r: map<DraftCell, seq<DraftCell>>)
    ensures forall k :: k in r <==> k in Flatten(t, TreeCell.Preorder) && (unTrimmed || |k.children| > 0)
    ensures forall k :: k in r ==> r[k] == k.children
  {
    MapRec(t, map[], unTrimmed)
  }
}
