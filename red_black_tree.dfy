/** A left-leaning red-black tree of linked nodes. Rotations relink the
 *  left and right fields of two nodes and repaint them, a colour flip
 *  repaints three, and insertion reassigns child links on the way back up
 *  the search path and finally the root. Every node carries, as ghost
 *  state, the set of nodes below it and the value tree (LlrbTree.Tree)
 *  they spell, so each operation is proved against its value-level
 *  counterpart in LlrbTree. */
module RedBlackTree {
  import LlrbTree

  class RBTreeNode {
    const item: int
    var isBlack: bool
    var left: RBTreeNode?
    var right: RBTreeNode?

    /** The nodes of the subtree rooted here. */
    ghost var Repr: set<RBTreeNode>
    /** The subtree rooted here, as a value. */
    ghost var Model: LlrbTree.Tree

    /** The nodes below form a tree (no sharing, no cycles) and Model
     *  spells out its colours, keys and shape. */
    ghost predicate Valid()
      reads this, Repr
      decreases Repr
    {
      this in Repr &&
      (left != null ==>
        left in Repr && left.Repr <= Repr && this !in left.Repr && left.Valid()) &&
      (right != null ==>
        right in Repr && right.Repr <= Repr && this !in right.Repr && right.Valid()) &&
      (left != null && right != null ==> left.Repr !! right.Repr) &&
      (left != null ==> left.Model.Node?) && (right != null ==> right.Model.Node?) &&
      Model == LlrbTree.Node(isBlack, ModelOf(left), item, ModelOf(right))
    }

    /** A node that is black iff BLACK, holding VALUE, with no children. */
    constructor (black: bool, value: int)
      ensures Valid() && Repr == {this}
      ensures Model == LlrbTree.Node(black, LlrbTree.Nil, value, LlrbTree.Nil)
    {
      isBlack := black;
      item := value;
      left := null;
      right := null;
      Repr := {this};
      Model := LlrbTree.Node(black, LlrbTree.Nil, value, LlrbTree.Nil);
    }
  }

  /** The value spelt by a link: an empty link is the empty tree. */
  ghost function ModelOf(n: RBTreeNode?): LlrbTree.Tree
    reads n
  {
    if n == null then LlrbTree.Nil else n.Model
  }

  /** The nodes reachable through a link. */
  ghost function ReprOf(n: RBTreeNode?): set<RBTreeNode>
    reads n
  {
    if n == null then {} else n.Repr
  }

  /** Points N at children L and R and paints it black iff BLACK: the
   *  field assignments of a rotation or a colour flip, one node at a
   *  time, with N's footprint and value brought up to date. */
  method Link(n: RBTreeNode, black: bool, l: RBTreeNode?, r: RBTreeNode?)
    requires l != null ==> l.Valid() && n !in l.Repr
    requires r != null ==> r.Valid() && n !in r.Repr
    requires l != null && r != null ==> l.Repr !! r.Repr
    modifies n
    ensures n.Valid() && n.left == l && n.right == r && n.isBlack == black
    ensures n.Repr == {n} + ReprOf(l) + ReprOf(r)
    ensures n.Model == LlrbTree.Node(black, ModelOf(l), n.item, ModelOf(r))
  {
    n.left := l;
    n.right := r;
    n.isBlack := black;
    n.Repr := {n} + ReprOf(l) + ReprOf(r);
    n.Model := LlrbTree.Node(black, ModelOf(l), n.item, ModelOf(r));
  }

  /** Brings N's footprint and value up to date after its links change. */
  ghost method Refresh(n: RBTreeNode)
    requires n.left != null ==> n.left.Valid() && n !in n.left.Repr
    requires n.right != null ==> n.right.Valid() && n !in n.right.Repr
    requires n.left != null && n.right != null ==> n.left.Repr !! n.right.Repr
    modifies n`Repr, n`Model
    ensures n.Valid()
    ensures n.Repr == {n} + ReprOf(n.left) + ReprOf(n.right)
    ensures n.Model == LlrbTree.Node(n.isBlack, ModelOf(n.left), n.item, ModelOf(n.right))
  {
    n.Repr := {n} + ReprOf(n.left) + ReprOf(n.right);
    n.Model := LlrbTree.Node(n.isBlack, ModelOf(n.left), n.item, ModelOf(n.right));
  }

  /** Paints N black iff BLACK and changes nothing else. */
  method Paint(n: RBTreeNode, black: bool)
    requires n.Valid()
    modifies n
    ensures n.Valid() && n.Repr == old(n.Repr)
    ensures n.left == old(n.left) && n.right == old(n.right) && n.isBlack == black
    ensures n.Model == old(n.Model).(black := black)
  {
    n.isBlack := black;
    n.Model := n.Model.(black := black);
  }

  class RedBlackTree {
    var root: RBTreeNode?

    /** The nodes form a tree whose keys are in search order and whose
     *  colours make it a left-leaning red-black tree. */
    ghost predicate Valid()
      reads this, root, ReprOf(root)
    {
      (root != null ==> root.Valid()) &&
      LlrbTree.Ordered(ModelOf(root)) && LlrbTree.IsLlrb(ModelOf(root))
    }

    /** The keys, colours and shape held, as a value. */
    ghost function Model(): LlrbTree.Tree
      reads this, root
    {
      ModelOf(root)
    }

    /** The empty tree. */
    constructor ()
      ensures Valid() && Model() == LlrbTree.Nil
    {
      root := null;
    }

    /** rotateRight: the left child becomes the top of the subtree; with
     *  no left child NODE is returned as it is. The source makes the same
     *  four field assignments, the new top's first; here NODE is relinked
     *  first so that no step leaves a cycle, and the colour the new top
     *  takes is read before NODE is repainted, as in the source. */
    method RotateRight(node: RBTreeNode) returns (r: RBTreeNode)
      requires node.Valid()
      modifies node, node.left
      ensures r.Valid() && r.Repr <= old(node.Repr)
      ensures r.Model == LlrbTree.RotateRight(old(node.Model))
      ensures old(node.left) == null ==> r == node
    {
      if node.left == null {
        return node;
      }
      var left := node.left;
      var leftRight := left.right;
      var black := node.isBlack;
      Link(node, false, leftRight, node.right);
      Link(left, black, left.left, node);
      return left;
    }

    /** rotateLeft: the right child becomes the top of the subtree; with
     *  no right child NODE is returned as it is. */
    method RotateLeft(node: RBTreeNode) returns (r: RBTreeNode)
      requires node.Valid()
      modifies node, node.right
      ensures r.Valid() && r.Repr <= old(node.Repr)
      ensures r.Model == LlrbTree.RotateLeft(old(node.Model))
      ensures old(node.right) == null ==> r == node
    {
      if node.right == null {
        return node;
      }
      var right := node.right;
      var rightLeft := right.left;
      var black := node.isBlack;
      Link(node, false, node.left, rightLeft);
      Link(right, black, node, right.right);
      return right;
    }

    /** flipColors: NODE and both of its children change colour. */
    method FlipColors(node: RBTreeNode)
      requires node.Valid() && node.left != null && node.right != null
      modifies node, node.left, node.right
      ensures node.Valid() && node.Repr <= old(node.Repr)
      ensures node.Model == LlrbTree.FlipColors(old(node.Model))
    {
      node.isBlack := !node.isBlack;
      Paint(node.left, !node.left.isBlack);
      Paint(node.right, !node.right.isBlack);
      node.Model := LlrbTree.Node(node.isBlack, node.left.Model, node.item, node.right.Model);
    }

    /** isRed: a link is red iff it leads to a node that is not black. */
    predicate IsRed(node: RBTreeNode?)
      reads node
    {
      node != null && !node.isBlack
    }

    /** A link is red exactly when the tree it spells has a red top, so an
     *  empty link is black. */
    lemma RedLink(node: RBTreeNode?)
      requires node != null ==> node.Valid()
      ensures IsRed(node) == LlrbTree.IsRed(ModelOf(node))
    {
    }

    /** The repairs made on the way back up from an insertion (lines
     *  160-168 of the recursive insert). */
    method Balance(node: RBTreeNode) returns (r: RBTreeNode)
      requires node.Valid()
      modifies node.Repr
      ensures r.Valid() && r.Repr <= old(node.Repr)
      ensures r.Model == LlrbTree.Balance(old(node.Model))
    {
      r := node;
      RedLink(r.left);
      RedLink(r.right);
      if IsRed(r.right) && !IsRed(r.left) {
        r := RotateLeft(r);
      }
      RedLink(r.left);
      if r.left != null {
        RedLink(r.left.left);
      }
      if IsRed(r.left) && IsRed(r.left.left) {
        r := RotateRight(r);
      }
      RedLink(r.left);
      RedLink(r.right);
      if IsRed(r.left) && IsRed(r.right) {
        FlipColors(r);
      }
    }

    /** The recursive insert: returns the new top of the subtree at NODE
     *  with ITEM in it. */
    method InsertAt(node: RBTreeNode?, item: int) returns (r: RBTreeNode)
      requires node != null ==> node.Valid()
      modifies ReprOf(node)
      ensures r.Valid() && fresh(r.Repr - old(ReprOf(node)))
      ensures r.Model == LlrbTree.Ins(old(ModelOf(node)), item)
      decreases ReprOf(node), 1
    {
      var n := node;
      if n == null {
        n := new RBTreeNode(false, item);
      }
      if item == n.item {
        return n;
      }
      if item < n.item {
        InsertLeft(n, item);
      } else {
        InsertRight(n, item);
      }
      r := Balance(n);
    }

    /** node.left = insert(node.left, item) */
    method InsertLeft(n: RBTreeNode, item: int)
      requires n.Valid()
      modifies n.Repr
      ensures n.Valid() && fresh(n.Repr - old(n.Repr))
      ensures n.Model == old(n.Model).(left := LlrbTree.Ins(old(n.Model).left, item))
      decreases n.Repr, 0
    {
      var l := InsertAt(n.left, item);
      n.left := l;
      Refresh(n);
    }

    /** node.right = insert(node.right, item) */
    method InsertRight(n: RBTreeNode, item: int)
      requires n.Valid()
      modifies n.Repr
      ensures n.Valid() && fresh(n.Repr - old(n.Repr))
      ensures n.Model == old(n.Model).(right := LlrbTree.Ins(old(n.Model).right, item))
      decreases n.Repr, 0
    {
      var rt := InsertAt(n.right, item);
      n.right := rt;
      Refresh(n);
    }

    /** insert: ITEM is added and the root painted black; the tree stays a
     *  left-leaning red-black search tree. */
    method Insert(item: int)
      requires Valid()
      modifies this, ReprOf(root)
      ensures Valid() && root != null && root.isBlack
      ensures Model() == LlrbTree.Insert(old(Model()), item)
      ensures LlrbTree.Keys(Model()) == LlrbTree.Keys(old(Model())) + {item}
    {
      ghost var before := Model();
      LlrbTree.InsertKeepsShape(before, item);
      root := InsertAt(root, item);
      Paint(root, true);
    }
  }
}
