/** Left-leaning red-black trees as values: the shapes, colours and keys
 *  that the linked nodes of RedBlackTree hold, and what rotations, colour
 *  flips and insertion do to them. Keys are integers ordered by <, which
 *  stands for the Comparable order of the source's type parameter. */
module LlrbTree {

  /** A node is black or red; an empty link (Nil) counts as black. */
  datatype Tree = Nil | Node(black: bool, left: Tree, item: int, right: Tree)

  function Keys(t: Tree): set<int>
  {
    match t
    case Nil => {}
    case Node(_, l, x, r) => Keys(l) + {x} + Keys(r)
  }

  /** The keys of T in order: left subtree, node, right subtree. */
  function InOrder(t: Tree): (r: seq<int>)
    ensures forall k :: k in r <==> k in Keys(t)
  {
    match t
    case Nil => []
    case Node(_, l, x, r) => InOrder(l) + [x] + InOrder(r)
  }

  /** The search-tree property: keys left of a node are smaller than its
   *  key and keys right of it are larger. */
  predicate Ordered(t: Tree)
  {
    match t
    case Nil => true
    case Node(_, l, x, r) =>
      Ordered(l) && Ordered(r) &&
      (forall k :: k in Keys(l) ==> k < x) &&
      (forall k :: k in Keys(r) ==> x < k)
  }

  predicate StrictlySorted(q: seq<int>)
  {
    forall i, j :: 0 <= i < j < |q| ==> q[i] < q[j]
  }

  /** In-order traversal of a search tree is strictly ascending, so no key
   *  is held twice. */
  lemma {:induction false} InOrderSorted(t: Tree)
    requires Ordered(t)
    ensures StrictlySorted(InOrder(t))
  {
    if t.Node? {
      var l, x, r := InOrder(t.left), t.item, InOrder(t.right);
      InOrderSorted(t.left);
      InOrderSorted(t.right);
      var q := l + [x] + r;
      forall i, j | 0 <= i < j < |q| ensures q[i] < q[j] {
        if j < |l| {
          assert q[i] == l[i] && q[j] == l[j];
        } else if i < |l| {
          assert q[i] == l[i] && l[i] in Keys(t.left);
          if j > |l| {
            assert q[j] == r[j - |l| - 1] && r[j - |l| - 1] in Keys(t.right);
          }
        } else if i == |l| {
          assert q[j] == r[j - |l| - 1] && r[j - |l| - 1] in Keys(t.right);
        } else {
          assert q[i] == r[i - |l| - 1] && q[j] == r[j - |l| - 1];
        }
      }
    }
  }

  /** RedBlackTree.isRed: only a node can be red; an empty link is black. */
  predicate IsRed(t: Tree)
  {
    t.Node? && !t.black
  }

  /** RedBlackTree.rotateRight: the left child moves up to the top, taking
   *  the old top's colour, and the old top, now red, becomes its right
   *  child; without a left child nothing changes. */
  function RotateRight(t: Tree): (r: Tree)
    requires t.Node?
    ensures t.left.Nil? ==> r == t
    ensures InOrder(r) == InOrder(t) && Keys(r) == Keys(t)
    ensures Ordered(t) ==> Ordered(r)
    ensures t.left.Node? ==>
              r.Node? && r.item == t.left.item && r.black == t.black &&
              r.right.Node? && r.right.item == t.item && !r.right.black
  {
    if t.left.Nil? then t
    else
      var Node(b, Node(e, a, x, c), y, d) := t;
      assert InOrder(t) == InOrder(a) + [x] + (InOrder(c) + [y] + InOrder(d));
      Regroup(a, x, c, y, d, b, e, false);
      Node(b, a, x, Node(false, c, y, d))
  }

  /** RedBlackTree.rotateLeft, the mirror image of rotateRight. */
  function RotateLeft(t: Tree): (r: Tree)
    requires t.Node?
    ensures t.right.Nil? ==> r == t
    ensures InOrder(r) == InOrder(t) && Keys(r) == Keys(t)
    ensures Ordered(t) ==> Ordered(r)
    ensures t.right.Node? ==>
              r.Node? && r.item == t.right.item && r.black == t.black &&
              r.left.Node? && r.left.item == t.item && !r.left.black
  {
    if t.right.Nil? then t
    else
      var Node(b, a, x, Node(e, c, y, d)) := t;
      assert InOrder(t) == (InOrder(a) + [x] + InOrder(c)) + [y] + InOrder(d);
      Regroup(a, x, c, y, d, b, false, e);
      Node(b, Node(false, a, x, c), y, d)
  }

  /** The two ways of hanging A, X, C, Y, D on two nodes, whatever their
   *  colours, are search trees together or not at all. */
  lemma Regroup(a: Tree, x: int, c: Tree, y: int, d: Tree, top: bool, low: bool, high: bool)
    ensures Ordered(Node(top, Node(low, a, x, c), y, d)) <==> Ordered(Node(top, a, x, Node(high, c, y, d)))
  {
    var leftHeavy := Node(top, Node(low, a, x, c), y, d);
    var rightHeavy := Node(top, a, x, Node(high, c, y, d));
    if Ordered(leftHeavy) {
      var inner := Node(low, a, x, c);
      assert x in Keys(inner) && Ordered(inner);
      forall k | k in Keys(Node(high, c, y, d)) ensures x < k {
        if k in Keys(d) {
          assert y < k;
        } else if k in Keys(c) {
          assert x < k;
        }
      }
    }
    if Ordered(rightHeavy) {
      var inner := Node(high, c, y, d);
      assert y in Keys(inner) && Ordered(inner);
      forall k | k in Keys(Node(low, a, x, c)) ensures k < y {
        if k in Keys(a) {
          assert k < x;
        } else if k in Keys(c) {
          assert k < y;
        }
      }
    }
  }

  /** Each rotation undoes the other. */
  lemma RotationsInverse(t: Tree)
    requires t.Node?
    ensures t.left.Node? && !t.black ==> RotateLeft(RotateRight(t)) == t.(left := t.left.(black := false))
    ensures t.right.Node? && !t.black ==> RotateRight(RotateLeft(t)) == t.(right := t.right.(black := false))
  {
  }

  /** RedBlackTree.flipColors: the node and both its children change
   *  colour; keys, shape and everything below the children stay. */
  function FlipColors(t: Tree): (r: Tree)
    requires t.Node? && t.left.Node? && t.right.Node?
    ensures r.Node? && r.left.Node? && r.right.Node?
    ensures r.black == !t.black && r.left.black == !t.left.black && r.right.black == !t.right.black
    ensures r.item == t.item && r.left.item == t.left.item && r.right.item == t.right.item
    ensures r.left.left == t.left.left && r.left.right == t.left.right
    ensures r.right.left == t.right.left && r.right.right == t.right.right
  {
    Node(!t.black, t.left.(black := !t.left.black), t.item, t.right.(black := !t.right.black))
  }

  /** Repainting one node changes nothing about the keys. */
  lemma Repaint(t: Tree, b: bool)
    requires t.Node?
    ensures Keys(t.(black := b)) == Keys(t) && InOrder(t.(black := b)) == InOrder(t)
    ensures Ordered(t) ==> Ordered(t.(black := b))
  {
  }

  /** Flipping twice restores every colour, and a flip keeps the keys in
   *  their order. */
  lemma FlipColorsInvolution(t: Tree)
    requires t.Node? && t.left.Node? && t.right.Node?
    ensures FlipColors(FlipColors(t)) == t
    ensures InOrder(FlipColors(t)) == InOrder(t)
    ensures Ordered(t) ==> Ordered(FlipColors(t))
  {
    Repaint(t.left, !t.left.black);
    Repaint(t.right, !t.right.black);
  }

  /** The three repairs after an insertion below T, in order: lean a lone
   *  red right child left, split two reds in a row on the left, and push a
   *  pair of red children up. */
  function Balance(t: Tree): (r: Tree)
    requires t.Node?
  {
    var a := if IsRed(t.right) && !IsRed(t.left) then RotateLeft(t) else t;
    var b := if IsRed(a.left) && IsRed(a.left.left) then RotateRight(a) else a;
    if IsRed(b.left) && IsRed(b.right) then FlipColors(b) else b
  }

  lemma BalanceKeeps(t: Tree)
    requires t.Node?
    ensures Balance(t).Node?
    ensures InOrder(Balance(t)) == InOrder(t) && Keys(Balance(t)) == Keys(t)
    ensures Ordered(t) ==> Ordered(Balance(t))
  {
    var a := if IsRed(t.right) && !IsRed(t.left) then RotateLeft(t) else t;
    var b := if IsRed(a.left) && IsRed(a.left.left) then RotateRight(a) else a;
    if IsRed(b.left) && IsRed(b.right) {
      FlipColorsInvolution(b);
    }
  }

  /** The private recursive insert: a missing key goes in as a new red
   *  leaf, a key already present stops the descent with nothing added, and
   *  every node on the way back up is rebalanced. */
  function Ins(t: Tree, x: int): (r: Tree)
    ensures r.Node?
    ensures Keys(r) == Keys(t) + {x}
    ensures Ordered(t) ==> Ordered(r)
    ensures Ordered(t) && x in Keys(t) ==> InOrder(r) == InOrder(t)
  {
    if t.Nil? then Node(false, Nil, x, Nil)
    else if x == t.item then t
    else
      var n :=
        if x < t.item then (GraftLeft(t, Ins(t.left, x), x); t.(left := Ins(t.left, x)))
        else (GraftRight(t, Ins(t.right, x), x); t.(right := Ins(t.right, x)));
      BalanceKeeps(n);
      Balance(n)
  }

  /** Replacing the left subtree by one that has X added, with order and
   *  entries kept as the recursive insert promises, adds X to the node. */
  lemma GraftLeft(t: Tree, c: Tree, x: int)
    requires t.Node? && x < t.item
    requires Keys(c) == Keys(t.left) + {x}
    requires Ordered(t.left) ==> Ordered(c)
    requires Ordered(t.left) && x in Keys(t.left) ==> InOrder(c) == InOrder(t.left)
    ensures Keys(t.(left := c)) == Keys(t) + {x}
    ensures Ordered(t) ==> Ordered(t.(left := c))
    ensures Ordered(t) && x in Keys(t) ==> InOrder(t.(left := c)) == InOrder(t)
  {
  }

  /** The mirror image of GraftLeft, for a key greater than the node's. */
  lemma GraftRight(t: Tree, c: Tree, x: int)
    requires t.Node? && t.item < x
    requires Keys(c) == Keys(t.right) + {x}
    requires Ordered(t.right) ==> Ordered(c)
    requires Ordered(t.right) && x in Keys(t.right) ==> InOrder(c) == InOrder(t.right)
    ensures Keys(t.(right := c)) == Keys(t) + {x}
    ensures Ordered(t) ==> Ordered(t.(right := c))
    ensures Ordered(t) && x in Keys(t) ==> InOrder(t.(right := c)) == InOrder(t)
  {
  }

  /** The public insert: the recursive insert, then the root painted
   *  black. */
  function Insert(t: Tree, x: int): (r: Tree)
    ensures r.Node? && r.black
    ensures Keys(r) == Keys(t) + {x}
    ensures Ordered(t) ==> Ordered(r)
  {
    var r := Ins(t, x);
    Node(true, r.left, r.item, r.right)
  }

  /** Inserting into a search tree adds X once: the keys come out in
   *  ascending order with X among them, and there is one more of them
   *  exactly when X was missing. */
  lemma InsertAddsOnce(t: Tree, x: int)
    requires Ordered(t)
    ensures StrictlySorted(InOrder(Insert(t, x)))
    ensures |InOrder(Insert(t, x))| == |InOrder(t)| + (if x in Keys(t) then 0 else 1)
  {
    InOrderSorted(Insert(t, x));
    SortedSize(t);
    SortedSize(Insert(t, x));
  }

  /** A search tree holds as many entries as it has distinct keys. */
  lemma {:induction false} SortedSize(t: Tree)
    requires Ordered(t)
    ensures |InOrder(t)| == |Keys(t)|
  {
    if t.Node? {
      SortedSize(t.left);
      SortedSize(t.right);
      var a, x, b := Keys(t.left), t.item, Keys(t.right);
      assert x !in a;
      assert |a + {x}| == |a| + 1;
      assert (a + {x}) * b == {} by {
        forall k | k in b ensures k !in a + {x} {
          assert x < k;
        }
      }
      assert |(a + {x}) + b| == |a + {x}| + |b|;
    }
  }

  /** Black links on the way down the left spine; in a balanced tree
   *  every path from the top to an empty link meets this many. */
  function BlackHeight(t: Tree): nat
  {
    match t
    case Nil => 0
    case Node(b, l, _, _) => BlackHeight(l) + (if b then 1 else 0)
  }

  /** Both children of every node have the same black height. */
  predicate BlackBalanced(t: Tree)
  {
    match t
    case Nil => true
    case Node(_, l, _, r) =>
      BlackBalanced(l) && BlackBalanced(r) && BlackHeight(l) == BlackHeight(r)
  }

  /** No node has a red right child. */
  predicate LeftLeaning(t: Tree)
  {
    match t
    case Nil => true
    case Node(_, l, _, r) => !IsRed(r) && LeftLeaning(l) && LeftLeaning(r)
  }

  /** No red node has a red left child. */
  predicate NoRedRun(t: Tree)
  {
    match t
    case Nil => true
    case Node(b, l, _, r) => (!b ==> !IsRed(l)) && NoRedRun(l) && NoRedRun(r)
  }

  /** A left-leaning red-black tree: the shape of a 2-3 tree. */
  predicate IsLlrb(t: Tree)
  {
    BlackBalanced(t) && LeftLeaning(t) && NoRedRun(t)
  }

  /** R, the repaired tree that replaced T, keeps T's black height and
   *  lean, and has no two reds in a row except possibly at its top, and
   *  not even there when T was black at the top. */
  predicate Repaired(t: Tree, r: Tree)
  {
    r.Node? && BlackBalanced(r) && BlackHeight(r) == BlackHeight(t) && LeftLeaning(r) &&
    NoRedRun(r.left) && NoRedRun(r.right) && (!IsRed(t) ==> NoRedRun(r))
  }

  /** What the recursive insert promises about L, the new left subtree
   *  of T. */
  predicate LeftGrown(t: Tree, l: Tree)
  {
    t.Node? && IsLlrb(t) && Repaired(t.left, l)
  }

  /** The recursive insert keeps the black height and the lean; below
   *  the top there are never two reds in a row, and at the top only when
   *  the tree inserted into was red at the top itself. */
  lemma {:induction false} InsKeepsShape(t: Tree, x: int)
    requires IsLlrb(t)
    ensures Repaired(t, Ins(t, x))
  {
    if t.Nil? || x == t.item {
    } else if x < t.item {
      InsKeepsShape(t.left, x);
      assert LeftGrown(t, Ins(t.left, x));
      BalanceAfterLeft(t, Ins(t.left, x));
    } else {
      InsKeepsShape(t.right, x);
      assert RightGrown(t, Ins(t.right, x));
      BalanceAfterRight(t, Ins(t.right, x));
    }
  }

  /** The repairs after an insertion on the left. */
  lemma BalanceAfterLeft(t: Tree, l: Tree)
    requires LeftGrown(t, l)
    ensures Repaired(t, Balance(t.(left := l)))
  {
    if IsRed(l) && IsRed(l.left) {
      LeftSplit(t, l);
    } else {
      LeftStays(t, l);
    }
  }

  /** Three reds in a row down the left: a right rotation, then a colour
   *  flip. */
  lemma LeftSplit(t: Tree, l: Tree)
    requires LeftGrown(t, l) && IsRed(l) && IsRed(l.left)
    ensures Repaired(t, Balance(t.(left := l)))
  {
    assert NoRedRun(t) && LeftLeaning(t) && BlackBalanced(t);
    assert t.black && IsRed(t.left) && !IsRed(t.right);
    var high := Node(true, l.right, t.item, t.right);
    var low := l.left.(black := true);
    PushUp(t.(left := l));
    assert BlackBalanced(l) && BlackHeight(l.right) == BlackHeight(l.left) == BlackHeight(l);
    assert BlackHeight(l) == BlackHeight(t.left) == BlackHeight(t.right);
    assert BlackHeight(low) == BlackHeight(l.left) + 1 == BlackHeight(high);
    assert BlackBalanced(high) && LeftLeaning(high) && NoRedRun(high);
    assert LeftLeaning(l.left) && NoRedRun(l.left) && BlackBalanced(l.left);
    assert BlackBalanced(low) && LeftLeaning(low) && NoRedRun(low);
  }

  /** The rotation and flip that split three reds in a row on the left. */
  lemma PushUp(n: Tree)
    requires n.Node? && n.black && !IsRed(n.right) && IsRed(n.left) && IsRed(n.left.left)
    ensures Balance(n) == Node(false, n.left.left.(black := true), n.left.item,
                               Node(true, n.left.right, n.item, n.right))
  {
  }

  /** No two reds in a row on the left: nothing to repair. */
  lemma LeftStays(t: Tree, l: Tree)
    requires LeftGrown(t, l) && !(IsRed(l) && IsRed(l.left))
    ensures Repaired(t, Balance(t.(left := l)))
  {
    assert NoRedRun(t) && LeftLeaning(t) && BlackBalanced(t) && !IsRed(t.right);
    Untouched(t.(left := l));
  }

  /** What the recursive insert promises about RT, the new right subtree
   *  of T. */
  predicate RightGrown(t: Tree, rt: Tree)
  {
    t.Node? && IsLlrb(t) && Repaired(t.right, rt)
  }

  lemma BalanceAfterRight(t: Tree, rt: Tree)
    requires RightGrown(t, rt)
    ensures Repaired(t, Balance(t.(right := rt)))
  {
    if IsRed(rt) && !IsRed(t.left) {
      RightLeaned(t, rt);
    } else if IsRed(rt) {
      RightSplit(t, rt);
    } else {
      RightStays(t, rt);
    }
  }

  lemma RightLeaned(t: Tree, rt: Tree)
    requires RightGrown(t, rt) && IsRed(rt) && !IsRed(t.left)
    ensures Repaired(t, Balance(t.(right := rt)))
  {
    assert !IsRed(t.right) && NoRedRun(rt) && !IsRed(rt.right);
    LeanLeft(t, rt);
    var low := Node(false, t.left, t.item, rt.left);
    assert !IsRed(rt.left);
    assert BlackHeight(rt.right) == BlackHeight(rt.left) == BlackHeight(t.left);
    assert BlackBalanced(low) && BlackHeight(low) == BlackHeight(t.left);
    assert LeftLeaning(low) && NoRedRun(low);
  }

  lemma RightSplit(t: Tree, rt: Tree)
    requires RightGrown(t, rt) && IsRed(rt) && IsRed(t.left)
    ensures Repaired(t, Balance(t.(right := rt)))
  {
    assert t.black && NoRedRun(t.left) && !IsRed(t.left.left);
    SplitFour(t.(right := rt));
    var l, r := t.left.(black := true), rt.(black := true);
    assert BlackHeight(t.left) == BlackHeight(t.right) == BlackHeight(rt);
    assert BlackHeight(l) == BlackHeight(t.left.left) + 1 == BlackHeight(t.left) + 1;
    assert BlackHeight(r) == BlackHeight(rt.left) + 1 == BlackHeight(rt) + 1;
    assert BlackBalanced(t.left) && LeftLeaning(t.left);
    assert BlackBalanced(l) && LeftLeaning(l) && NoRedRun(l);
    assert BlackBalanced(r) && LeftLeaning(r) && NoRedRun(r);
  }

  lemma RightStays(t: Tree, rt: Tree)
    requires RightGrown(t, rt) && !IsRed(rt)
    ensures Repaired(t, Balance(t.(right := rt)))
  {
    assert NoRedRun(t.left) && !IsRed(t.right) && NoRedRun(rt);
    Untouched(t.(right := rt));
  }

  /** Two red children, neither with a red child on the left: only the
   *  colour flip applies. */
  lemma SplitFour(n: Tree)
    requires n.Node? && IsRed(n.left) && IsRed(n.right) && !IsRed(n.left.left)
    ensures Balance(n) == FlipColors(n)
  {
  }

  /** A black right child and no two reds in a row on the left: no repair
   *  applies. */
  lemma Untouched(n: Tree)
    requires n.Node? && !IsRed(n.right) && !(IsRed(n.left) && IsRed(n.left.left))
    ensures Balance(n) == n
  {
  }

  /** A red right child under a node whose left child is black is leaned
   *  left by one rotation, and nothing else happens. */
  lemma LeanLeft(t: Tree, rt: Tree)
    requires t.Node? && rt.Node? && IsRed(rt) && !IsRed(t.left) && !IsRed(rt.right)
    ensures Balance(t.(right := rt)) ==
              Node(t.black, Node(false, t.left, t.item, rt.left), rt.item, rt.right)
  {
    var a := RotateLeft(t.(right := rt));
    assert a == Node(t.black, Node(false, t.left, t.item, rt.left), rt.item, rt.right);
  }

  /** The public insert turns a left-leaning red-black tree into another
   *  one, with a black top. */
  lemma InsertKeepsShape(t: Tree, x: int)
    requires IsLlrb(t)
    ensures IsLlrb(Insert(t, x))
  {
    InsKeepsShape(t, x);
  }
}
