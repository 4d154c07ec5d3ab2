/** A set of strings kept in an unbalanced binary search tree ordered by
 *  String.compareTo, with an in-order iterator driven by an explicit
 *  stack of nodes. Trees are modelled as values: the source links fresh
 *  nodes in below existing ones, and a value tree rebuilt along the
 *  search path holds the same labels in the same shape. */
module BstStringSet {
  import opened JavaString
  import opened Wrappers

  datatype Tree = Nil | Node(left: Tree, s: string, right: Tree)

  function Elements(t: Tree): set<string>
  {
    match t
    case Nil => {}
    case Node(l, x, r) => Elements(l) + {x} + Elements(r)
  }

  /** The labels of T in order: left subtree, node, right subtree. */
  function InOrder(t: Tree): (r: seq<string>)
    ensures forall y :: y in r <==> y in Elements(t)
  {
    match t
    case Nil => []
    case Node(l, x, r) => InOrder(l) + [x] + InOrder(r)
  }

  /** The search-tree property: labels left of a node come before it and
   *  labels right of it come after it. */
  predicate Ordered(t: Tree)
  {
    match t
    case Nil => true
    case Node(l, x, r) =>
      Ordered(l) && Ordered(r) &&
      (forall y :: y in Elements(l) ==> Less(y, x)) &&
      (forall y :: y in Elements(r) ==> Less(x, y))
  }

  predicate StrictlySorted(q: seq<string>)
  {
    forall i, j :: 0 <= i < j < |q| ==> Less(q[i], q[j])
  }

  /** In-order traversal of a search tree is strictly ascending: every
   *  label comes out once, in order. */
  lemma {:induction false} InOrderSorted(t: Tree)
    requires Ordered(t)
    ensures StrictlySorted(InOrder(t))
  {
    if t.Node? {
      var l, x, r := InOrder(t.left), t.s, InOrder(t.right);
      InOrderSorted(t.left);
      InOrderSorted(t.right);
      var q := l + [x] + r;
      forall i, j | 0 <= i < j < |q| ensures Less(q[i], q[j]) {
        if j < |l| {
          assert q[i] == l[i] && q[j] == l[j];
        } else if i < |l| {
          assert q[i] == l[i] && l[i] in Elements(t.left);
          if j > |l| {
            assert q[j] == r[j - |l| - 1] && r[j - |l| - 1] in Elements(t.right);
            LessTransitive(q[i], x, q[j]);
          }
        } else if i == |l| {
          assert q[j] == r[j - |l| - 1] && r[j - |l| - 1] in Elements(t.right);
        } else {
          assert q[i] == r[i - |l| - 1] && q[j] == r[j - |l| - 1];
        }
      }
    }
  }

  /** BSTStringSet.putt: S goes in as a new leaf below the node where the
   *  search for it falls off the tree; a label equal to S stops the search
   *  and nothing is added. */
  function Putt(s: string, n: Tree): (r: Tree)
    ensures Elements(r) == Elements(n) + {s}
    ensures Ordered(n) ==> Ordered(r)
    ensures Ordered(n) && s in Elements(n) ==> r == n
  {
    match n
    case Nil => Node(Nil, s, Nil)
    case Node(l, x, rt) =>
      CompareToFlips(s, x);
      if CompareTo(s, x) < 0 then
        Node(if l == Nil then Node(Nil, s, Nil) else Putt(s, l), x, rt)
      else if CompareTo(s, x) > 0 then
        Node(l, x, if rt == Nil then Node(Nil, s, Nil) else Putt(s, rt))
      else n
  }

  /** BSTStringSet.contain: the search for S down from N. */
  function Contain(s: string, n: Tree): bool
  {
    match n
    case Nil => false
    case Node(l, x, r) =>
      if CompareTo(s, x) == 0 then true
      else if CompareTo(s, x) < 0 && l != Nil then Contain(s, l)
      else if CompareTo(s, x) > 0 && r != Nil then Contain(s, r)
      else false
  }

  /** On a search tree the search finds S exactly when S is a label. */
  lemma {:induction false} ContainFinds(s: string, n: Tree)
    requires Ordered(n)
    ensures Contain(s, n) <==> s in Elements(n)
  {
    if n.Node? {
      CompareToFlips(s, n.s);
      if CompareTo(s, n.s) < 0 {
        ContainFinds(s, n.left);
        assert s !in Elements(n.right) by {
          if s in Elements(n.right) {
            Trichotomy(s, n.s);
          }
        }
      } else if CompareTo(s, n.s) > 0 {
        ContainFinds(s, n.right);
        assert s !in Elements(n.left) by {
          if s in Elements(n.left) {
            Trichotomy(s, n.s);
          }
        }
      }
    }
  }

  /** The labels still to come from a stack of nodes, top last: the top's
   *  label, then its right subtree in order, then the rest of the stack. */
  function Pending(stack: seq<Tree>): seq<string>
  {
    if stack == [] then []
    else
      var top := stack[|stack| - 1];
      match top
      case Nil => Pending(stack[..|stack| - 1])
      case Node(_, x, r) => [x] + InOrder(r) + Pending(stack[..|stack| - 1])
  }

  /** Pushing a node and going on to its left child leaves the labels to
   *  come unchanged: those of the left subtree, then the node's own, then
   *  its right subtree's. */
  lemma PendingPush(stack: seq<Tree>, n: Tree)
    requires n.Node?
    ensures InOrder(n.left) + Pending(stack + [n]) == InOrder(n) + Pending(stack)
  {
    assert (stack + [n])[..|stack|] == stack;
    assert Pending(stack + [n]) == [n.s] + InOrder(n.right) + Pending(stack);
  }

  /** BSTStringSet.BSTIterator. */
  class BSTIterator {
    /** Nodes to be delivered, the top of the stack last. */
    var toDo: seq<Tree>

    ghost predicate Valid()
      reads this
    {
      forall k :: 0 <= k < |toDo| ==> toDo[k].Node?
    }

    /** The labels the iterator has yet to deliver. */
    ghost function Remaining(): seq<string>
      reads this
    {
      Pending(toDo)
    }

    constructor (node: Tree)
      ensures Valid() && Remaining() == InOrder(node)
    {
      toDo := [];
      new;
      AddTree(node);
    }

    /** Pushes NODE and its chain of left children. */
    method AddTree(node: Tree)
      requires Valid()
      modifies this
      ensures Valid() && Remaining() == InOrder(node) + old(Remaining())
    {
      var n := node;
      while n != Nil
        invariant Valid()
        invariant InOrder(n) + Remaining() == InOrder(node) + old(Remaining())
        decreases n
      {
        PendingPush(toDo, n);
        toDo := toDo + [n];
        n := n.left;
      }
    }

    /** hasNext: some label is still to come. */
    function HasNext(): (b: bool)
      requires Valid()
      reads this
      ensures b <==> Remaining() != []
    {
      toDo != []
    }

    /** next: the next label, or None where the source throws
     *  NoSuchElementException. */
    method Next() returns (r: Option<string>)
      requires Valid()
      modifies this
      ensures Valid()
      ensures old(Remaining()) == [] ==> r == None && toDo == old(toDo)
      ensures old(Remaining()) != [] ==> r == Some(old(Remaining())[0]) && Remaining() == old(Remaining())[1..]
    {
      if !HasNext() {
        return None;
      }
      var node := toDo[|toDo| - 1];
      toDo := toDo[..|toDo| - 1];
      AddTree(node.right);
      r := Some(node.s);
    }
  }

  /** BSTStringSet. */
  class BSTStringSet {
    var root: Tree

    ghost predicate Valid()
      reads this
    {
      Ordered(root)
    }

    constructor ()
      ensures Valid() && Elements(root) == {}
    {
      root := Nil;
    }

    /** put: adds S; a string already present is not added twice. */
    method Put(s: string)
      requires Valid()
      modifies this
      ensures Valid() && Elements(root) == old(Elements(root)) + {s}
      ensures s in old(Elements(root)) ==> root == old(root)
    {
      root := Putt(s, root);
    }

    /** contains: S is one of the strings put so far. */
    function Contains(s: string): (b: bool)
      requires Valid()
      reads this
      ensures b <==> s in Elements(root)
    {
      ContainFinds(s, root);
      Contain(s, root)
    }

    method Iterator() returns (it: BSTIterator)
      ensures fresh(it) && it.Valid() && it.Remaining() == InOrder(root)
    {
      it := new BSTIterator(root);
    }

    /** asList: the labels in the order the iterator delivers them, which
     *  is strictly ascending. */
    method AsList() returns (result: seq<string>)
      requires Valid()
      ensures result == InOrder(root) && StrictlySorted(result)
    {
      var it := Iterator();
      result := [];
      while it.HasNext()
        invariant it.Valid() && result + it.Remaining() == InOrder(root)
        decreases |it.Remaining()|
      {
        ghost var rem := it.Remaining();
        var next := it.Next();
        assert rem == [next.value] + it.Remaining();
        assert (result + [next.value]) + it.Remaining() == result + rem;
        result := result + [next.value];
      }
      InOrderSorted(root);
    }
  }
}
