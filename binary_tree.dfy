/**
 * A positional binary-tree node with a left slot, a right slot and a back
 * link to its parent, together with the recursive preorder and inorder
 * traversals over it. The traversals produce the sequence of visited data
 * values (the order in which they are printed).
 */
module BinaryTrees {

  class BinaryTreeNode {
    var data: int
    var leftChild: BinaryTreeNode?
    var rightChild: BinaryTreeNode?
    var parent: BinaryTreeNode?

    /** A detached node holding `d`, with both slots empty. */
    constructor (d: int)
      ensures data == d && leftChild == null && rightChild == null && parent == null
    {
      data := d;
      leftChild := null;
      rightChild := null;
      parent := null;
    }

    method SetParent(p: BinaryTreeNode?)
      modifies this`parent
      ensures parent == p
    {
      parent := p;
    }

    method SetData(d: int)
      modifies this`data
      ensures data == d
    {
      data := d;
    }

    /** Creates a node holding `d` whose parent is this node and puts it in the requested slot; the other slot is untouched. */
    method AddPositionalChild(d: int, isLeft: bool) returns (n: BinaryTreeNode)
      modifies this`leftChild, this`rightChild
      ensures fresh(n) && IsNewChild(n, d)
      ensures isLeft ==> leftChild == n && rightChild == old(rightChild)
      ensures !isLeft ==> rightChild == n && leftChild == old(leftChild)
    {
      n := new BinaryTreeNode(d);
      n.SetParent(this);
      if isLeft {
        leftChild := n;
      } else {
        rightChild := n;
      }
    }

    /** `n` is a childless node holding `d` whose parent is this node. */
    ghost predicate IsNewChild(n: BinaryTreeNode, d: int)
      reads n
    {
      n.data == d && n.parent == this && n.leftChild == null && n.rightChild == null
    }

    /** Fills the left slot if it is empty; otherwise returns null and changes nothing. */
    method AddLeftChild(d: int) returns (n: BinaryTreeNode?)
      modifies this`leftChild, this`rightChild
      ensures rightChild == old(rightChild)
      ensures old(leftChild) != null ==> n == null && leftChild == old(leftChild)
      ensures old(leftChild) == null ==> n != null && fresh(n) && IsNewChild(n, d) && leftChild == n
    {
      n := null;
      if leftChild == null {
        n := AddPositionalChild(d, true);
      }
    }

    /** Fills the right slot if it is empty; otherwise returns null and changes nothing. */
    method AddRightChild(d: int) returns (n: BinaryTreeNode?)
      modifies this`leftChild, this`rightChild
      ensures leftChild == old(leftChild)
      ensures old(rightChild) != null ==> n == null && rightChild == old(rightChild)
      ensures old(rightChild) == null ==> n != null && fresh(n) && IsNewChild(n, d) && rightChild == n
    {
      n := null;
      if rightChild == null {
        n := AddPositionalChild(d, false);
      }
    }

    /**
     * The "left first, then right" policy: fills the left slot if it is
     * empty, else the right slot if that is empty, and otherwise returns
     * null without changing anything, so a node never gets a third child.
     */
    method AddChild(d: int) returns (n: BinaryTreeNode?)
      modifies this`leftChild, this`rightChild
      ensures old(leftChild) == null ==>
                n != null && fresh(n) && IsNewChild(n, d)
                && leftChild == n && rightChild == old(rightChild)
      ensures old(leftChild) != null && old(rightChild) == null ==>
                n != null && fresh(n) && IsNewChild(n, d)
                && leftChild == old(leftChild) && rightChild == n
      ensures old(leftChild) != null && old(rightChild) != null ==>
                n == null && leftChild == old(leftChild) && rightChild == old(rightChild)
    {
      n := AddLeftChild(d);
      if n == null {
        n := AddRightChild(d);
      }
    }
  }

  // ---------------------------------------------------------------------
  // Traversals
  // ---------------------------------------------------------------------

  /** The value of a binary tree: a null node is `Nil`. */
  datatype Tree = Nil | Node(left: Tree, data: int, right: Tree)

  /** Node first, then the left subtree, then the right subtree; a null node contributes nothing. */
  function PreOrder(t: Tree): seq<int> {
    match t
    case Nil => []
    case Node(l, d, r) => [d] + PreOrder(l) + PreOrder(r)
  }

  /** The left subtree, then the node, then the right subtree. */
  function InOrder(t: Tree): seq<int> {
    match t
    case Nil => []
    case Node(l, d, r) => InOrder(l) + [d] + InOrder(r)
  }

  /** Number of nodes. */
  function Size(t: Tree): nat {
    match t
    case Nil => 0
    case Node(l, _, r) => Size(l) + 1 + Size(r)
  }

  /** The data values held by the nodes, one occurrence per node. */
  function Values(t: Tree): multiset<int> {
    match t
    case Nil => multiset{}
    case Node(l, d, r) => Values(l) + multiset{d} + Values(r)
  }

  /** Both traversals visit every node exactly once: each lists the tree's values with one entry per node. */
  lemma {:induction false} TraversalsVisitEachNodeOnce(t: Tree)
    ensures |PreOrder(t)| == Size(t) && multiset(PreOrder(t)) == Values(t)
    ensures |InOrder(t)| == Size(t) && multiset(InOrder(t)) == Values(t)
  {
    match t
    case Nil =>
    case Node(l, d, r) =>
      TraversalsVisitEachNodeOnce(l);
      TraversalsVisitEachNodeOnce(r);
      assert PreOrder(t) == [d] + PreOrder(l) + PreOrder(r);
      assert InOrder(t) == InOrder(l) + [d] + InOrder(r);
  }

  ghost predicate Distinct(s: seq<int>) {
    forall i, j :: 0 <= i < j < |s| ==> s[i] != s[j]
  }

  lemma DistinctParts(d: int, a: seq<int>, b: seq<int>)
    requires Distinct([d] + a + b)
    ensures d !in a && Distinct(a) && Distinct(b)
  {
    var s := [d] + a + b;
    forall k | 0 <= k < |a| ensures a[k] != d {
      assert a[k] == s[k + 1] && d == s[0];
    }
    forall i, j | 0 <= i < j < |a| ensures a[i] != a[j] {
      assert a[i] == s[i + 1] && a[j] == s[j + 1];
    }
    forall i, j | 0 <= i < j < |b| ensures b[i] != b[j] {
      assert b[i] == s[i + 1 + |a|] && b[j] == s[j + 1 + |a|];
    }
  }

  /** With distinct values, the root's value does not occur in the left subtree. */
  lemma RootNotInLeft(t: Tree)
    requires t.Node? && Distinct(PreOrder(t))
    ensures t.data !in InOrder(t.left)
  {
    TraversalsVisitEachNodeOnce(t.left);
    assert PreOrder(t) == [t.data] + PreOrder(t.left) + PreOrder(t.right);
    DistinctParts(t.data, PreOrder(t.left), PreOrder(t.right));
    assert t.data !in multiset(PreOrder(t.left));
    assert multiset(InOrder(t.left)) == multiset(PreOrder(t.left));
  }

  lemma SplitEqual(x1: seq<int>, y1: seq<int>, z1: seq<int>, x2: seq<int>, y2: seq<int>, z2: seq<int>)
    requires x1 + y1 + z1 == x2 + y2 + z2 && |x1| == |x2| && |y1| == |y2|
    ensures x1 == x2 && y1 == y2 && z1 == z2
  {
    var s := x1 + y1 + z1;
    assert x1 == s[..|x1|] == x2;
    assert y1 == s[|x1|..|x1| + |y1|] == y2;
    assert z1 == s[|x1| + |y1|..] == z2;
  }

  /** Where the root sits in the inorder sequence: after exactly the left subtree, when values are distinct. */
  lemma RootSplitsInOrder(t1: Tree, t2: Tree)
    requires t1.Node? && t2.Node? && t1.data == t2.data
    requires Distinct(PreOrder(t1)) && Distinct(PreOrder(t2))
    requires InOrder(t1) == InOrder(t2)
    ensures |InOrder(t1.left)| == |InOrder(t2.left)|
  {
    var d := t1.data;
    var l1, l2 := InOrder(t1.left), InOrder(t2.left);
    assert InOrder(t1) == l1 + [d] + InOrder(t1.right);
    assert InOrder(t2) == l2 + [d] + InOrder(t2.right);
    assert |l1| < |l2| ==> InOrder(t1)[|l1|] == d && InOrder(t2)[|l1|] == l2[|l1|];
    assert |l2| < |l1| ==> InOrder(t2)[|l2|] == d && InOrder(t1)[|l2|] == l1[|l2|];
    RootNotInLeft(t1);
    RootNotInLeft(t2);
  }

  /**
   * When the values are distinct, the preorder and the inorder sequences
   * together determine the tree.
   */
  lemma {:induction false} TraversalsDetermineTree(t1: Tree, t2: Tree)
    requires Distinct(PreOrder(t1))
    requires PreOrder(t1) == PreOrder(t2) && InOrder(t1) == InOrder(t2)
    ensures t1 == t2
  {
    match t1
    case Nil =>
      assert t2.Node? ==> |PreOrder(t2)| > 0;
    case Node(l1, d, r1) =>
      assert |PreOrder(t1)| > 0;
      assert t2.Node?;
      var l2, r2 := t2.left, t2.right;
      assert PreOrder(t1) == [d] + PreOrder(l1) + PreOrder(r1);
      assert PreOrder(t2) == [t2.data] + PreOrder(l2) + PreOrder(r2);
      assert PreOrder(t1)[0] == d && PreOrder(t2)[0] == t2.data;
      RootSplitsInOrder(t1, t2);
      assert InOrder(t1) == InOrder(l1) + [d] + InOrder(r1);
      assert InOrder(t2) == InOrder(l2) + [d] + InOrder(r2);
      SplitEqual(InOrder(l1), [d], InOrder(r1), InOrder(l2), [d], InOrder(r2));
      TraversalsVisitEachNodeOnce(l1);
      TraversalsVisitEachNodeOnce(l2);
      SplitEqual([d], PreOrder(l1), PreOrder(r1), [d], PreOrder(l2), PreOrder(r2));
      DistinctParts(d, PreOrder(l1), PreOrder(r1));
      TraversalsDetermineTree(l1, l2);
      TraversalsDetermineTree(r1, r2);
  }

  // ---------------------------------------------------------------------
  // Traversing linked nodes
  // ---------------------------------------------------------------------

  /**
   * The nodes reachable from `n` through child slots lie in `fp` and no node
   * is reached twice along one path, so the links hold no cycle. A node may
   * still hang from two slots; a traversal then visits it once per path.
   */
  ghost predicate Closed(n: BinaryTreeNode?, fp: set<BinaryTreeNode>)
    reads fp
    decreases fp
  {
    n == null || (n in fp && Closed(n.leftChild, fp - {n}) && Closed(n.rightChild, fp - {n}))
  }

  /** The value of the tree hanging from `n`. */
  ghost function Shape(n: BinaryTreeNode?, fp: set<BinaryTreeNode>): Tree
    reads fp
    requires Closed(n, fp)
    decreases fp
  {
    if n == null then Nil
    else Node(Shape(n.leftChild, fp - {n}), n.data, Shape(n.rightChild, fp - {n}))
  }

  /** Preorder traversal following the child links of `n`. */
  function PreOrderTraversal(n: BinaryTreeNode?, ghost fp: set<BinaryTreeNode>): (s: seq<int>)
    reads fp
    requires Closed(n, fp)
    ensures s == PreOrder(Shape(n, fp))
    decreases fp
  {
    if n == null then []
    else [n.data] + PreOrderTraversal(n.leftChild, fp - {n}) + PreOrderTraversal(n.rightChild, fp - {n})
  }

  /** Inorder traversal following the child links of `n`. */
  function InOrderTraversal(n: BinaryTreeNode?, ghost fp: set<BinaryTreeNode>): (s: seq<int>)
    reads fp
    requires Closed(n, fp)
    ensures s == InOrder(Shape(n, fp))
    decreases fp
  {
    if n == null then []
    else InOrderTraversal(n.leftChild, fp - {n}) + [n.data] + InOrderTraversal(n.rightChild, fp - {n})
  }
  /** A leaf hanging from both slots of `n` is visited once for each slot, as the recursion over the links does. */
  lemma SharedLeafVisitedTwice(n: BinaryTreeNode, m: BinaryTreeNode)
    requires n != m && n.leftChild == m && n.rightChild == m
    requires m.leftChild == null && m.rightChild == null
    ensures Closed(n, {n, m})
    ensures PreOrderTraversal(n, {n, m}) == [n.data, m.data, m.data]
    ensures InOrderTraversal(n, {n, m}) == [m.data, n.data, m.data]
  {
    assert {n, m} - {n} == {m};
    ShapeOfLeaf(m, {m});
  }


  /** A node in `fp` with both slots empty is a one-node tree. */
  lemma ShapeOfLeaf(n: BinaryTreeNode, fp: set<BinaryTreeNode>)
    requires n in fp && n.leftChild == null && n.rightChild == null
    ensures Closed(n, fp) && Shape(n, fp) == Node(Nil, n.data, Nil)
  {
  }

  /** A node in `fp` whose two children hang trees outside it is a tree with those subtrees. */
  lemma ShapeOfInner(n: BinaryTreeNode, fp: set<BinaryTreeNode>, l: Tree, r: Tree)
    requires n in fp && Closed(n.leftChild, fp - {n}) && Closed(n.rightChild, fp - {n})
    requires Shape(n.leftChild, fp - {n}) == l && Shape(n.rightChild, fp - {n}) == r
    ensures Closed(n, fp) && Shape(n, fp) == Node(l, n.data, r)
  {
  }

  /** Three levels of nodes linked as in the exercise, read as a tree value. */
  lemma ExerciseShape(root: BinaryTreeNode, c1: BinaryTreeNode, c2: BinaryTreeNode,
                      c11: BinaryTreeNode, c12: BinaryTreeNode, c21: BinaryTreeNode, c22: BinaryTreeNode)
    requires root.leftChild == c1 && root.rightChild == c2
    requires c1.leftChild == c11 && c1.rightChild == c12 && c2.leftChild == c21 && c2.rightChild == c22
    requires c11.leftChild == c11.rightChild == c12.leftChild == c12.rightChild == null
    requires c21.leftChild == c21.rightChild == c22.leftChild == c22.rightChild == null
    requires c1 != root && c2 != root
    requires c11 !in {root, c1} && c12 !in {root, c1} && c21 !in {root, c2} && c22 !in {root, c2}
    ensures var fp := {root, c1, c2, c11, c12, c21, c22};
            && Closed(root, fp)
            && Shape(root, fp) == Node(Node(Node(Nil, c11.data, Nil), c1.data, Node(Nil, c12.data, Nil)), root.data,
                                       Node(Node(Nil, c21.data, Nil), c2.data, Node(Nil, c22.data, Nil)))
  {
    var fp := {root, c1, c2, c11, c12, c21, c22};
    var fp1, fp2 := fp - {root} - {c1}, fp - {root} - {c2};
    assert c11 in fp1 && c12 in fp1 && c21 in fp2 && c22 in fp2;
    ShapeOfLeaf(c11, fp1);
    ShapeOfLeaf(c12, fp1);
    ShapeOfLeaf(c21, fp2);
    ShapeOfLeaf(c22, fp2);
    ShapeOfInner(c1, fp - {root}, Node(Nil, c11.data, Nil), Node(Nil, c12.data, Nil));
    ShapeOfInner(c2, fp - {root}, Node(Nil, c21.data, Nil), Node(Nil, c22.data, Nil));
    ShapeOfInner(root, fp, Shape(c1, fp - {root}), Shape(c2, fp - {root}));
  }

  /** The tree the exercise builds, as a value. */
  function ExerciseValue(): Tree {
    Node(Node(Node(Nil, 4, Nil), 2, Node(Nil, 5, Nil)), 1, Node(Node(Nil, 6, Nil), 3, Node(Nil, 7, Nil)))
  }

  lemma ExercisePreOrder()
    ensures PreOrder(ExerciseValue()) == [1, 2, 4, 5, 3, 6, 7]
  {
    var t := ExerciseValue();
    assert PreOrder(t.left.left) == [4] && PreOrder(t.left.right) == [5];
    assert PreOrder(t.right.left) == [6] && PreOrder(t.right.right) == [7];
    assert PreOrder(t.left) == [2, 4, 5] && PreOrder(t.right) == [3, 6, 7];
  }

  lemma ExerciseInOrder()
    ensures InOrder(ExerciseValue()) == [4, 2, 5, 1, 6, 3, 7]
  {
    var t := ExerciseValue();
    assert InOrder(t.left.left) == [4] && InOrder(t.left.right) == [5];
    assert InOrder(t.right.left) == [6] && InOrder(t.right.right) == [7];
    assert InOrder(t.left) == [4, 2, 5] && InOrder(t.right) == [6, 3, 7];
  }

  /**
   * The exercise's tree: root 1 with children 2 and 3, which get 4, 5 and
   * 6, 7 through the left-first policy. Its traversals are 1 2 4 5 3 6 7
   * and 4 2 5 1 6 3 7.
   */
  method ExerciseTree() returns (root: BinaryTreeNode, ghost fp: set<BinaryTreeNode>, pre: seq<int>, ino: seq<int>)
    ensures pre == [1, 2, 4, 5, 3, 6, 7] && ino == [4, 2, 5, 1, 6, 3, 7]
    ensures Closed(root, fp)
    ensures pre == PreOrderTraversal(root, fp) && ino == InOrderTraversal(root, fp)
  {
    root := new BinaryTreeNode(1);
    var child1 := root.AddChild(2);
    var child2 := root.AddChild(3);
    var child11 := child1.AddChild(4);
    var child12 := child1.AddChild(5);
    var child21 := child2.AddChild(6);
    var child22 := child2.AddChild(7);
    fp := {root, child1, child2, child11, child12, child21, child22};
    assert root.leftChild == child1 && root.rightChild == child2 && root.data == 1;
    assert child1.leftChild == child11 && child1.rightChild == child12 && child1.data == 2;
    assert child2.leftChild == child21 && child2.rightChild == child22 && child2.data == 3;
    assert child11.data == 4 && child11.leftChild == null && child11.rightChild == null;
    assert child12.data == 5 && child12.leftChild == null && child12.rightChild == null;
    assert child21.data == 6 && child21.leftChild == null && child21.rightChild == null;
    assert child22.data == 7 && child22.leftChild == null && child22.rightChild == null;
    ExerciseShape(root, child1, child2, child11, child12, child21, child22);
    ExercisePreOrder();
    ExerciseInOrder();
    pre := PreOrderTraversal(root, fp);
    ino := InOrderTraversal(root, fp);
  }
}
