/**
 * core/parser/IterationHolder.kt: the indexes the parser keeps for one
 * iteration, built in a single traversal of its root cell.
 */
module IterationHolder {
  import opened TreeCell
  import opened TreeCellState

  type Cell = Tree<CellState>

  /** An iteration's root cell with its title map, call-ordered list and completion-ordered list. */
  datatype Holder = Holder(
    rootCell: Cell,
    titleMap: map<string, Cell>,
    callOrdered: seq<Cell>,
    completionOrdered: seq<Cell>)

  datatype IterationListOrder = CallOrder | CompletionOrder

  /** What `rec` accumulates: the title map, the preorder list and the postorder list. */
  datatype Acc = Acc(titles: map<string, Cell>, pre: seq<Cell>, post: seq<Cell>)

  /**
   * `rec`: add the node to the preorder list and under its title in the map
   * (every node, overwriting), visit the children, then add the node to the
   * postorder list. The single traversal does the work of three: the
   * untrimmed `mapRec`, the preorder flattening and the postorder flattening.
   */
  function Rec(node: Cell, acc: Acc): (r: Acc)
    ensures r == Acc(
      MapRec(node, acc.titles, true),
      acc.pre + Flatten(node, Preorder),
      acc.post + Flatten(node, Postorder))
    decreases node, 1
  {
    var acc1 := Acc(acc.titles[node.title := node], acc.pre + [node], acc.post);
    var acc2 := RecAll(node.children, acc1);
    AppendAssoc(acc.pre, [node], FlattenAll(node.children, Preorder));
    AppendAssoc(acc.post, FlattenAll(node.children, Postorder), [node]);
    acc2.(post := acc2.post + [node])
  }

  /** The `forEach` over the children in `rec`. */
  function RecAll(ts: seq<Cell>, acc: Acc): (r: Acc)
    ensures r == Acc(
      MapRecAll(ts, acc.titles, true),
      acc.pre + FlattenAll(ts, Preorder),
      acc.post + FlattenAll(ts, Postorder))
    decreases ts, 0
  {
    if ts == [] then acc
    else
      AppendAssoc(acc.pre, Flatten(ts[0], Preorder), FlattenAll(ts[1..], Preorder));
      AppendAssoc(acc.post, Flatten(ts[0], Postorder), FlattenAll(ts[1..], Postorder));
      RecAll(ts[1..], Rec(ts[0], acc))
  }

  lemma AppendAssoc(a: seq<Cell>, b: seq<Cell>, c: seq<Cell>)
    ensures a + b + c == a + (b + c)
  {
  }

  /**
   * `mapPrePostListFromRoot`: the title map is the untrimmed `toMap` (every
   * title, the last node in preorder winning), and the two lists are the
   * preorder and postorder flattenings of the root.
   */
  function MapPrePostListFromRoot(root: Cell): (r: Acc)
    ensures r.titles == ToMap(root, true)
    ensures r.pre == Flatten(root, Preorder) && r.post == Flatten(root, Postorder)
  {
    Rec(root, Acc(map[], [], []))
  }

  /** The holder's indexes of one root, as the constructor builds them. */
  ghost predicate HolderOf(h: Holder)
  {
    && h.titleMap == ToMap(h.rootCell, true)
    && h.callOrdered == Flatten(h.rootCell, Preorder)
    && h.completionOrdered == Flatten(h.rootCell, Postorder)
  }

  /**
   * The `IterationHolder` constructor: the root with its untrimmed title map,
   * its preorder (call-ordered) list and its postorder (completion-ordered)
   * list.
   */
  function MakeHolder(root: Cell): (h: Holder)
    ensures h.rootCell == root && HolderOf(h)
  {
    var acc := MapPrePostListFromRoot(root);
    Holder(root, acc.titles, acc.pre, acc.post)
  }

  /**
   * A holder's title map has an entry for every title of its tree, holding
   * the last cell with that title in call order; its completion-ordered list
   * is a reordering of its call-ordered list.
   */
  lemma HolderIndexes(h: Holder)
    requires HolderOf(h)
    ensures forall k :: k in h.titleMap <==> k in Titles(h.callOrdered)
    ensures forall k :: k in h.titleMap ==>
      exists i :: LastListedAt(h.callOrdered, true, k, i) && h.titleMap[k] == h.callOrdered[i]
    ensures multiset(h.callOrdered) == multiset(h.completionOrdered)
  {
    var p := h.callOrdered;
    TraversalsArePermutations(h.rootCell);
    forall k
      ensures k in h.titleMap <==> k in Titles(p)
    {
      if k in Titles(p) {
        var i :| 0 <= i < |p| && Titles(p)[i] == k;
        assert Listed(p[i], true) && p[i].title == k;
      }
      if HasListed(p, true, k) {
        var i :| 0 <= i < |p| && Listed(p[i], true) && p[i].title == k;
        assert Titles(p)[i] == k;
      }
    }
  }
}
