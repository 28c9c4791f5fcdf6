/**
 * The shape of a linked general tree, stored in an arena: node `i` of a tree
 * is slot `i` of a sequence, and its parent and children are slot numbers.
 * Slot 0 is the root, and every other node is stored after its parent,
 * because a node can only be created under a node that already exists.
 *
 * This module holds the structural definitions (ancestry, preorder, depth,
 * height) and the lemmas about them; the class `LinkedTree` in module
 * `LinkedTrees` stores an arena and updates it in place.
 */
module TreeArena {
  import opened Wrappers

  /** The links of one node: its parent (`None` for the root) and its children in insertion order. */
  datatype NodeLinks = NodeLinks(parent: Option<nat>, children: seq<nat>)

  type Arena = seq<NodeLinks>

  /**
   * The representation invariant of a tree: slot 0 is the only parentless
   * node, every other node's parent is stored before it and lists it among
   * its children, every child points back at its parent, and children are
   * kept in the order they were created.
   */
  ghost predicate WellFormed(a: Arena) {
    && (|a| > 0 ==> a[0].parent.None?)
    && ParentsListChildren(a)
    && ChildrenPointBack(a)
    && ChildrenAscending(a)
  }

  /** Every node but slot 0 has a parent stored before it, which lists it among its children. */
  ghost predicate ParentsListChildren(a: Arena) {
    forall c {:trigger a[c].parent} :: 0 < c < |a| ==>
      a[c].parent.Some? && a[c].parent.value < c && c in a[a[c].parent.value].children
  }

  /** Every child is stored after its parent and points back at it. */
  ghost predicate ChildrenPointBack(a: Arena) {
    forall i, k {:trigger a[i].children[k]} :: 0 <= i < |a| && 0 <= k < |a[i].children| ==>
      i < a[i].children[k] < |a| && a[a[i].children[k]].parent == Some(i)
  }

  /** Children are listed in creation order, hence strictly increasing. */
  ghost predicate ChildrenAscending(a: Arena) {
    forall i, k1, k2 {:trigger a[i].children[k1], a[i].children[k2]} :: 0 <= i < |a| && 0 <= k1 < k2 < |a[i].children| ==>
      a[i].children[k1] < a[i].children[k2]
  }

  // ---------------------------------------------------------------------
  // Ancestry
  // ---------------------------------------------------------------------

  /** `x` lies on the path from `y` up to the root (every node is its own ancestor). */
  ghost predicate IsAncestor(a: Arena, x: nat, y: nat)
    requires WellFormed(a)
    decreases y
  {
    y < |a| && (x == y || (y > 0 && IsAncestor(a, x, a[y].parent.value)))
  }

  lemma {:induction false} AncestorIsEarlier(a: Arena, x: nat, y: nat)
    requires WellFormed(a) && IsAncestor(a, x, y)
    ensures x <= y
    decreases y
  {
    if x != y {
      AncestorIsEarlier(a, x, a[y].parent.value);
    }
  }

  lemma {:induction false} AncestorTransitive(a: Arena, x: nat, y: nat, z: nat)
    requires WellFormed(a) && IsAncestor(a, x, y) && IsAncestor(a, y, z)
    ensures IsAncestor(a, x, z)
    decreases z
  {
    if y != z {
      AncestorTransitive(a, x, y, a[z].parent.value);
    }
  }

  /** The ancestors of a node form a chain. */
  lemma {:induction false} AncestorsAreOrdered(a: Arena, x: nat, y: nat, z: nat)
    requires WellFormed(a) && IsAncestor(a, x, z) && IsAncestor(a, y, z)
    ensures IsAncestor(a, x, y) || IsAncestor(a, y, x)
    decreases z
  {
    if x != z && y != z {
      AncestorsAreOrdered(a, x, y, a[z].parent.value);
    }
  }

  /** The root is an ancestor of every node: walking up parent links always ends at the root. */
  lemma {:induction false} RootIsAncestorOfAll(a: Arena, y: nat)
    requires WellFormed(a) && y < |a|
    ensures IsAncestor(a, 0, y)
    decreases y
  {
    if y > 0 {
      RootIsAncestorOfAll(a, a[y].parent.value);
    }
  }

  /** Everything below a child of `i` is below `i`. */
  lemma DescendantOfChild(a: Arena, i: nat, k: nat, y: nat)
    requires WellFormed(a) && i < |a| && k < |a[i].children|
    requires IsAncestor(a, a[i].children[k], y)
    ensures IsAncestor(a, i, y)
  {
    var c := a[i].children[k];
    assert IsAncestor(a, i, c) by {
      assert a[c].parent == Some(i);
      assert IsAncestor(a, i, i);
    }
    AncestorTransitive(a, i, c, y);
  }

  /** A proper descendant of `i` lies below exactly the child of `i` on its path. */
  lemma {:induction false} ProperDescendantUnderChild(a: Arena, i: nat, y: nat)
    requires WellFormed(a) && i < |a| && IsAncestor(a, i, y) && i != y
    ensures UnderChildren(a, i, |a[i].children|, y)
    decreases y
  {
    var p := a[y].parent.value;
    if p == i {
      var k :| 0 <= k < |a[i].children| && a[i].children[k] == y;
      assert IsAncestor(a, a[i].children[k], y);
    } else {
      AncestorIsEarlier(a, i, p);
      ProperDescendantUnderChild(a, i, p);
      var k :| 0 <= k < |a[i].children| && IsAncestor(a, a[i].children[k], p);
      assert IsAncestor(a, a[i].children[k], y);
    }
  }

  /** `y` lies in the subtree of one of the first `k` children of `i`. */
  ghost predicate UnderChildren(a: Arena, i: nat, k: nat, y: nat)
    requires WellFormed(a) && i < |a| && k <= |a[i].children|
  {
    exists j {:trigger IsAncestor(a, a[i].children[j], y)} :: 0 <= j < k && IsAncestor(a, a[i].children[j], y)
  }

  /** Subtrees of two different children of a node share no node. */
  lemma SiblingSubtreesDisjoint(a: Arena, i: nat, k1: nat, k2: nat, y: nat)
    requires WellFormed(a) && i < |a| && k1 < k2 < |a[i].children|
    requires IsAncestor(a, a[i].children[k1], y)
    ensures !IsAncestor(a, a[i].children[k2], y)
  {
    var c1, c2 := a[i].children[k1], a[i].children[k2];
    if IsAncestor(a, c2, y) {
      AncestorsAreOrdered(a, c1, c2, y);
      if IsAncestor(a, c1, c2) {
        assert IsAncestor(a, c1, i);
        AncestorIsEarlier(a, c1, i);
      } else {
        assert IsAncestor(a, c2, i);
        AncestorIsEarlier(a, c2, i);
      }
    }
  }

  // ---------------------------------------------------------------------
  // Preorder
  // ---------------------------------------------------------------------

  /** Preorder of the subtree at `i`: the node, then each child's subtree, left to right. */
  ghost function Preorder(a: Arena, i: nat): seq<nat>
    requires WellFormed(a) && i < |a|
    decreases |a| - i, 1, 0
  {
    [i] + PreorderChildren(a, i, |a[i].children|)
  }

  /** The preorders of the first `k` children of `i`, one after the other. */
  ghost function PreorderChildren(a: Arena, i: nat, k: nat): seq<nat>
    requires WellFormed(a) && i < |a| && k <= |a[i].children|
    decreases |a| - i, 0, k
  {
    if k == 0 then []
    else PreorderChildren(a, i, k - 1) + Preorder(a, a[i].children[k - 1])
  }

  /** The preorder of `i` up to child `k + 1`: up to child `k`, then the `k`-th child's subtree. */
  lemma PreorderNextChild(a: Arena, i: nat, k: nat)
    requires WellFormed(a) && i < |a| && k < |a[i].children|
    ensures [i] + PreorderChildren(a, i, k + 1) == ([i] + PreorderChildren(a, i, k)) + Preorder(a, a[i].children[k])
  {
    assert PreorderChildren(a, i, k + 1) == PreorderChildren(a, i, k) + Preorder(a, a[i].children[k]);
  }

  /** Preorder of the subtree at `i` lists each descendant of `i` once and nothing else. */
  lemma {:induction false} PreorderCount(a: Arena, i: nat, y: nat)
    requires WellFormed(a) && i < |a|
    ensures multiset(Preorder(a, i))[y] == if IsAncestor(a, i, y) then 1 else 0
    decreases |a| - i, 1, 0
  {
    var cs := a[i].children;
    PreorderChildrenCount(a, i, |cs|, y);
    assert Preorder(a, i) == [i] + PreorderChildren(a, i, |cs|);
    if y == i {
      forall k | 0 <= k < |cs| ensures !IsAncestor(a, cs[k], y) {
        if IsAncestor(a, cs[k], y) {
          AncestorIsEarlier(a, cs[k], y);
        }
      }
    } else if IsAncestor(a, i, y) {
      ProperDescendantUnderChild(a, i, y);
    } else {
      forall k | 0 <= k < |cs| ensures !IsAncestor(a, cs[k], y) {
        if IsAncestor(a, cs[k], y) {
          DescendantOfChild(a, i, k, y);
        }
      }
    }
  }

  lemma {:induction false} PreorderChildrenCount(a: Arena, i: nat, k: nat, y: nat)
    requires WellFormed(a) && i < |a| && k <= |a[i].children|
    ensures multiset(PreorderChildren(a, i, k))[y] == if UnderChildren(a, i, k, y) then 1 else 0
    decreases |a| - i, 0, k
  {
    if k > 0 {
      var c := a[i].children[k - 1];
      var front := PreorderChildren(a, i, k - 1);
      var last := Preorder(a, c);
      assert multiset(PreorderChildren(a, i, k)) == multiset(front) + multiset(last);
      PreorderChildrenCount(a, i, k - 1, y);
      PreorderCount(a, c, y);
      UnderOneMoreChild(a, i, k, y);
    }
  }

  /** The child of `i` whose subtree holds `y`, among the first `k`. */
  lemma UnderWhichChild(a: Arena, i: nat, k: nat, y: nat) returns (j: nat)
    requires WellFormed(a) && i < |a| && k <= |a[i].children| && UnderChildren(a, i, k, y)
    ensures j < k && IsAncestor(a, a[i].children[j], y)
  {
    j :| 0 <= j < k && IsAncestor(a, a[i].children[j], y);
  }

  /** `UnderChildren` from a witness. */
  lemma UnderChild(a: Arena, i: nat, k: nat, j: nat, y: nat)
    requires WellFormed(a) && i < |a| && j < k <= |a[i].children| && IsAncestor(a, a[i].children[j], y)
    ensures UnderChildren(a, i, k, y)
  {
  }

  /** A node under one of the first `k` children is under one of the first `k - 1` or under the `k`-th. */
  lemma UnderFrontOrLast(a: Arena, i: nat, k: nat, y: nat)
    requires WellFormed(a) && i < |a| && 0 < k <= |a[i].children| && UnderChildren(a, i, k, y)
    ensures UnderChildren(a, i, k - 1, y) || IsAncestor(a, a[i].children[k - 1], y)
  {
    var j := UnderWhichChild(a, i, k, y);
    if j < k - 1 {
      UnderChild(a, i, k - 1, j, y);
    }
  }

  /** Adding the `k`-th child's subtree adds `y` only if no earlier sibling's subtree holds it. */
  lemma UnderOneMoreChild(a: Arena, i: nat, k: nat, y: nat)
    requires WellFormed(a) && i < |a| && 0 < k <= |a[i].children|
    ensures UnderChildren(a, i, k, y) <==> UnderChildren(a, i, k - 1, y) || IsAncestor(a, a[i].children[k - 1], y)
    ensures !(UnderChildren(a, i, k - 1, y) && IsAncestor(a, a[i].children[k - 1], y))
  {
    if UnderChildren(a, i, k, y) {
      UnderFrontOrLast(a, i, k, y);
    }
    if IsAncestor(a, a[i].children[k - 1], y) {
      UnderChild(a, i, k, k - 1, y);
    }
    if UnderChildren(a, i, k - 1, y) {
      var j := UnderWhichChild(a, i, k - 1, y);
      UnderChild(a, i, k, j, y);
      SiblingSubtreesDisjoint(a, i, j, k - 1, y);
    }
  }

  lemma PreorderMember(a: Arena, i: nat, y: nat)
    requires WellFormed(a) && i < |a|
    ensures y in Preorder(a, i) <==> IsAncestor(a, i, y)
  {
    PreorderCount(a, i, y);
  }

  lemma PreorderChildrenMember(a: Arena, i: nat, k: nat, y: nat)
    requires WellFormed(a) && i < |a| && k <= |a[i].children|
    requires y in PreorderChildren(a, i, k)
    ensures UnderChildren(a, i, k, y)
  {
    PreorderChildrenCount(a, i, k, y);
  }

  /** Nothing under the `k`-th child of `i` is an ancestor of a node under an earlier child. */
  lemma LaterSiblingNotAbove(a: Arena, i: nat, k: nat, x: nat, y: nat)
    requires WellFormed(a) && i < |a| && 0 < k <= |a[i].children|
    requires UnderChildren(a, i, k - 1, x) && IsAncestor(a, a[i].children[k - 1], y)
    ensures !IsAncestor(a, y, x)
  {
    var j := UnderWhichChild(a, i, k - 1, x);
    if IsAncestor(a, y, x) {
      AncestorTransitive(a, a[i].children[k - 1], y, x);
      SiblingSubtreesDisjoint(a, i, j, k - 1, x);
    }
  }

  /** Every node of `s` comes before all of its descendants in `s`; in particular no node appears twice. */
  ghost predicate AncestorsFirst(a: Arena, s: seq<nat>)
    requires WellFormed(a)
  {
    forall j, k :: 0 <= j < k < |s| ==> !IsAncestor(a, s[k], s[j])
  }

  lemma AncestorsFirstAppend(a: Arena, s: seq<nat>, t: seq<nat>)
    requires WellFormed(a) && AncestorsFirst(a, s) && AncestorsFirst(a, t)
    requires forall x, y :: x in s && y in t ==> !IsAncestor(a, y, x)
    ensures AncestorsFirst(a, s + t)
  {
    var u := s + t;
    forall j, k | 0 <= j < k < |u| ensures !IsAncestor(a, u[k], u[j]) {
      if k < |s| {
        assert u[j] == s[j] && u[k] == s[k];
      } else if j >= |s| {
        assert u[j] == t[j - |s|] && u[k] == t[k - |s|];
      } else {
        assert u[j] == s[j] && u[k] == t[k - |s|];
      }
    }
  }

  /** In a preorder every node comes before all of its descendants, and no node appears twice. */
  lemma {:induction false} PreorderAncestorsFirst(a: Arena, i: nat)
    requires WellFormed(a) && i < |a|
    ensures AncestorsFirst(a, Preorder(a, i))
    decreases |a| - i, 1, 0
  {
    var cs := a[i].children;
    var rest := PreorderChildren(a, i, |cs|);
    PreorderChildrenAncestorsFirst(a, i, |cs|);
    forall x, y | x in [i] && y in rest ensures !IsAncestor(a, y, x) {
      PreorderChildrenMember(a, i, |cs|, y);
      var j :| 0 <= j < |cs| && IsAncestor(a, cs[j], y);
      AncestorIsEarlier(a, cs[j], y);
      if IsAncestor(a, y, x) {
        AncestorIsEarlier(a, y, x);
      }
    }
    AncestorsFirstAppend(a, [i], rest);
  }

  lemma {:induction false} PreorderChildrenAncestorsFirst(a: Arena, i: nat, k: nat)
    requires WellFormed(a) && i < |a| && k <= |a[i].children|
    ensures AncestorsFirst(a, PreorderChildren(a, i, k))
    decreases |a| - i, 0, k
  {
    if k > 0 {
      var cs := a[i].children;
      var front := PreorderChildren(a, i, k - 1);
      var last := Preorder(a, cs[k - 1]);
      PreorderChildrenAncestorsFirst(a, i, k - 1);
      PreorderAncestorsFirst(a, cs[k - 1]);
      forall x, y | x in front && y in last ensures !IsAncestor(a, y, x) {
        PreorderChildrenMember(a, i, k - 1, x);
        PreorderMember(a, cs[k - 1], y);
        LaterSiblingNotAbove(a, i, k, x, y);
      }
      AncestorsFirstAppend(a, front, last);
    }
  }

  /** The slot numbers `0 .. n-1` in increasing order. */
  function Range(n: nat): (r: seq<nat>)
    ensures |r| == n
    ensures forall y: nat :: multiset(r)[y] == if y < n then 1 else 0
  {
    if n == 0 then []
    else
      var top: nat := n - 1;
      var r := Range(top) + [top];
      assert multiset(r) == multiset(Range(top)) + multiset{top};
      r
  }

  /**
   * The preorder from the root visits every node of the arena exactly once:
   * the number of stored nodes is the number of nodes reachable from the root.
   */
  lemma PreorderFromRootComplete(a: Arena)
    requires WellFormed(a) && |a| > 0
    ensures multiset(Preorder(a, 0)) == multiset(Range(|a|))
    ensures |Preorder(a, 0)| == |a|
    ensures Preorder(a, 0)[0] == 0
    ensures AncestorsFirst(a, Preorder(a, 0))
  {
    forall y: nat ensures multiset(Preorder(a, 0))[y] == multiset(Range(|a|))[y] {
      PreorderCount(a, 0, y);
      if y < |a| {
        RootIsAncestorOfAll(a, y);
      }
    }
    assert multiset(Preorder(a, 0)) == multiset(Range(|a|));
    calc {
      |Preorder(a, 0)|;
      |multiset(Preorder(a, 0))|;
      |multiset(Range(|a|))|;
      |a|;
    }
    PreorderAncestorsFirst(a, 0);
  }

  // ---------------------------------------------------------------------
  // Depth and height
  // ---------------------------------------------------------------------

  /** Number of edges on the path from `i` up to the root. */
  ghost function Depth(a: Arena, i: nat): nat
    requires WellFormed(a) && i < |a|
    decreases i
  {
    match a[i].parent
    case None => 0
    case Some(p) => 1 + Depth(a, p)
  }

  function Max(x: nat, y: nat): nat {
    if x < y then y else x
  }

  /** Height of the subtree at `i`: 0 for a leaf, otherwise 1 + the largest child height. */
  ghost function Height(a: Arena, i: nat): nat
    requires WellFormed(a) && i < |a|
    decreases |a| - i, 1, 0
  {
    if a[i].children == [] then 0
    else 1 + MaxHeight(a, i, |a[i].children|)
  }

  /** The largest height among the first `k` children of `i` (0 when `k` is 0). */
  ghost function MaxHeight(a: Arena, i: nat, k: nat): nat
    requires WellFormed(a) && i < |a| && k <= |a[i].children|
    decreases |a| - i, 0, k
  {
    if k == 0 then 0
    else Max(MaxHeight(a, i, k - 1), Height(a, a[i].children[k - 1]))
  }

  /** A child is one level deeper than its parent. */
  lemma DepthOfChild(a: Arena, i: nat, k: nat)
    requires WellFormed(a) && i < |a| && k < |a[i].children|
    ensures Depth(a, a[i].children[k]) == Depth(a, i) + 1
  {
  }

  /** No child among the first `k` is taller than `MaxHeight(a, i, k)`. */
  lemma {:induction false} MaxHeightIsUpperBound(a: Arena, i: nat, k: nat)
    requires WellFormed(a) && i < |a| && k <= |a[i].children|
    ensures forall j :: 0 <= j < k ==> Height(a, a[i].children[j]) <= MaxHeight(a, i, k)
  {
    if k > 0 {
      MaxHeightIsUpperBound(a, i, k - 1);
    }
  }

  /** A child among the first `k` that is as tall as `MaxHeight(a, i, k)`. */
  lemma {:induction false} TallestChild(a: Arena, i: nat, k: nat) returns (j: nat)
    requires WellFormed(a) && i < |a| && 0 < k <= |a[i].children|
    ensures j < k && Height(a, a[i].children[j]) == MaxHeight(a, i, k)
  {
    if k == 1 {
      j := 0;
    } else {
      j := TallestChild(a, i, k - 1);
      if MaxHeight(a, i, k - 1) < Height(a, a[i].children[k - 1]) {
        j := k - 1;
      }
    }
  }

  /** The height of an internal node is one more than the height of its tallest child. */
  lemma HeightOfInternal(a: Arena, i: nat)
    requires WellFormed(a) && i < |a| && a[i].children != []
    ensures forall j :: 0 <= j < |a[i].children| ==> Height(a, a[i].children[j]) < Height(a, i)
    ensures exists j :: 0 <= j < |a[i].children| && Height(a, a[i].children[j]) + 1 == Height(a, i)
  {
    MaxHeightIsUpperBound(a, i, |a[i].children|);
    var j := TallestChild(a, i, |a[i].children|);
  }

  /** Going down one edge loses at least one level of height. */
  lemma HeightOfParent(a: Arena, y: nat)
    requires WellFormed(a) && 0 < y < |a|
    ensures Height(a, y) < Height(a, a[y].parent.value)
  {
    var p := a[y].parent.value;
    var k :| 0 <= k < |a[p].children| && a[p].children[k] == y;
    HeightOfInternal(a, p);
  }

  lemma {:induction false} DescendantWithinHeight(a: Arena, i: nat, y: nat)
    requires WellFormed(a) && i < |a| && IsAncestor(a, i, y)
    ensures Depth(a, y) + Height(a, y) <= Depth(a, i) + Height(a, i)
    decreases y
  {
    if y != i {
      var p := a[y].parent.value;
      DescendantWithinHeight(a, i, p);
      HeightOfParent(a, y);
    }
  }

  /** A descendant of `i` that lies `Height(a, i)` levels below it. */
  lemma {:induction false} DeepestDescendant(a: Arena, i: nat) returns (y: nat)
    requires WellFormed(a) && i < |a|
    ensures IsAncestor(a, i, y) && Depth(a, y) == Depth(a, i) + Height(a, i)
    decreases |a| - i
  {
    if a[i].children == [] {
      y := i;
    } else {
      var j := TallestChild(a, i, |a[i].children|);
      var c := a[i].children[j];
      y := DeepestDescendant(a, c);
      DescendantOfChild(a, i, j, y);
      DepthOfChild(a, i, j);
    }
  }

  /**
   * The height of a node is the length of the longest downward path from it:
   * no descendant lies more than `Height(a, i)` levels below `i`, and some
   * descendant lies exactly that far below.
   */
  lemma HeightIsLongestPath(a: Arena, i: nat)
    requires WellFormed(a) && i < |a|
    ensures forall y :: IsAncestor(a, i, y) ==> Depth(a, y) - Depth(a, i) <= Height(a, i)
    ensures exists y :: IsAncestor(a, i, y) && Depth(a, y) - Depth(a, i) == Height(a, i)
  {
    forall y | IsAncestor(a, i, y) ensures Depth(a, y) - Depth(a, i) <= Height(a, i) {
      DescendantWithinHeight(a, i, y);
    }
    var y := DeepestDescendant(a, i);
  }

  // ---------------------------------------------------------------------
  // Growing the tree
  // ---------------------------------------------------------------------

  /**
   * Node-level `addChild`: make `c` a child of `p` by setting `c`'s parent
   * link to `p` and appending `c` at the end of `p`'s children. No other
   * node's links change.
   */
  function Attach(a: Arena, p: nat, c: nat): (r: Arena)
    requires p < |a| && c < |a| && p != c
    ensures |r| == |a|
    ensures r[c].parent == Some(p) && r[c].children == a[c].children
    ensures r[p].children == a[p].children + [c] && r[p].parent == a[p].parent
    ensures forall j :: 0 <= j < |a| && j != p && j != c ==> r[j] == a[j]
  {
    a[c := a[c].(parent := Some(p))][p := a[p].(children := a[p].children + [c])]
  }

  /** The arena after the tree-level `addChild` under `p`: a new childless slot `|a|`, attached to `p`. */
  function Grow(a: Arena, p: nat): (r: Arena)
    requires p < |a|
    ensures |r| == |a| + 1
  {
    Attach(a + [NodeLinks(Some(p), [])], p, |a|)
  }

  /**
   * Adding a child keeps the tree well formed, keeps every old node's
   * ancestry and depth, and puts the new node one level below `p`,
   * under exactly `p`'s ancestors.
   */
  lemma GrowPreservesTree(a: Arena, p: nat)
    requires WellFormed(a) && p < |a|
    ensures WellFormed(Grow(a, p))
    ensures forall x: nat, y: nat :: y < |a| ==> (IsAncestor(Grow(a, p), x, y) <==> IsAncestor(a, x, y))
    ensures forall x: nat :: IsAncestor(Grow(a, p), x, |a|) <==> (x == |a| || IsAncestor(a, x, p))
    ensures forall y: nat :: y < |a| ==> Depth(Grow(a, p), y) == Depth(a, y)
    ensures Depth(Grow(a, p), |a|) == Depth(a, p) + 1
  {
    var g := Grow(a, p);
    GrowKeepsParents(a, p);
    GrowKeepsBackLinks(a, p);
    GrowKeepsOrder(a, p);
    assert g[|a|].parent == Some(p);
    forall x: nat, y: nat | y < |a| ensures IsAncestor(g, x, y) <==> IsAncestor(a, x, y) {
      SameAncestry(a, p, x, y);
    }
    forall y: nat | y < |a| ensures Depth(g, y) == Depth(a, y) {
      SameDepth(a, p, y);
    }
    SameDepth(a, p, p);
  }

  lemma GrowKeepsParents(a: Arena, p: nat)
    requires WellFormed(a) && p < |a|
    ensures |Grow(a, p)| > 0 && Grow(a, p)[0].parent.None?
    ensures ParentsListChildren(Grow(a, p))
  {
    var g := Grow(a, p);
    var n := |a|;
    forall c | 0 < c < |g|
      ensures g[c].parent.Some? && g[c].parent.value < c && c in g[g[c].parent.value].children
    {
      if c < n {
        assert g[c].parent == a[c].parent;
        var q := a[c].parent.value;
        assert c in a[q].children;
        assert q != p ==> g[q] == a[q];
        assert a[q].children <= g[q].children;
      } else {
        assert g[c].parent == Some(p);
        assert g[p].children == a[p].children + [c];
      }
    }
    assert p != 0 ==> g[0] == a[0];
  }

  lemma GrowKeepsBackLinks(a: Arena, p: nat)
    requires WellFormed(a) && p < |a|
    ensures ChildrenPointBack(Grow(a, p))
  {
    var g := Grow(a, p);
    var n := |a|;
    forall i, k | 0 <= i < |g| && 0 <= k < |g[i].children|
      ensures i < g[i].children[k] < |g| && g[g[i].children[k]].parent == Some(i)
    {
      if i == p && k == |a[p].children| {
        assert g[i].children[k] == n;
      } else {
        assert i != p ==> g[i] == a[i];
        assert g[i].children[k] == a[i].children[k];
        var c := a[i].children[k];
        assert c != n && c != p ==> g[c] == a[c];
      }
    }
  }

  lemma GrowKeepsOrder(a: Arena, p: nat)
    requires WellFormed(a) && p < |a|
    ensures ChildrenAscending(Grow(a, p))
  {
    var g := Grow(a, p);
    forall i, k1, k2 | 0 <= i < |g| && 0 <= k1 < k2 < |g[i].children|
      ensures g[i].children[k1] < g[i].children[k2]
    {
      assert i != p ==> g[i] == a[i];
      if i == p && k2 == |a[p].children| {
        assert g[i].children[k1] == a[p].children[k1];
        assert g[i].children[k2] == |a|;
      } else {
        assert g[i].children[k1] == a[i].children[k1];
        assert g[i].children[k2] == a[i].children[k2];
      }
    }
  }

  lemma {:induction false} SameAncestry(a: Arena, p: nat, x: nat, y: nat)
    requires WellFormed(a) && p < |a| && y < |a| && WellFormed(Grow(a, p))
    ensures IsAncestor(Grow(a, p), x, y) <==> IsAncestor(a, x, y)
    decreases y
  {
    var g := Grow(a, p);
    assert g[y].parent == a[y].parent;
    if y > 0 {
      SameAncestry(a, p, x, a[y].parent.value);
    }
  }

  lemma {:induction false} SameDepth(a: Arena, p: nat, y: nat)
    requires WellFormed(a) && p < |a| && y < |a| && WellFormed(Grow(a, p))
    ensures Depth(Grow(a, p), y) == Depth(a, y)
    decreases y
  {
    var g := Grow(a, p);
    assert g[y].parent == a[y].parent;
    if y > 0 {
      SameDepth(a, p, a[y].parent.value);
    }
  }
}
