/**
 * A general rooted tree whose node handles are checked against the tree
 * that created them. The tree keeps its root, a running size counter and,
 * for each node, its element and its parent/children links. Nodes live in
 * an arena (module `TreeArena`): node `i` is slot `i` of `links` and of
 * `elements`, and a handle names its owning tree and its slot.
 */
module LinkedTrees {
  import opened Wrappers
  import opened TreeArena

  /** The failures a tree operation signals (Java's `IllegalArgumentException` and `IllegalStateException`). */
  datatype TreeError =
    | InvalidNode   // a null handle
    | ForeignNode   // a handle created by another tree
    | TreeNotEmpty  // `addRoot` on a tree that already has a root

  /** A node handle: the tree that created the node and the node's slot in it. */
  datatype Handle<T> = Handle(owner: LinkedTree<T>, index: nat)

  /** The handles of `owner`'s nodes at the slots listed in `s`, in the same order. */
  function HandlesOf<T>(owner: LinkedTree<T>, s: seq<nat>): (hs: seq<Handle<T>>)
    ensures |hs| == |s|
    ensures forall k :: 0 <= k < |s| ==> hs[k] == Handle(owner, s[k])
  {
    seq(|s|, k requires 0 <= k < |s| => Handle(owner, s[k]))
  }

  lemma HandlesOfAppend<T>(owner: LinkedTree<T>, s: seq<nat>, t: seq<nat>)
    ensures HandlesOf(owner, s + t) == HandlesOf(owner, s) + HandlesOf(owner, t)
  {
    assert forall k :: 0 <= k < |s + t| ==> (s + t)[k] == if k < |s| then s[k] else t[k - |s|];
  }

  lemma AppendAssociative<X>(s: seq<X>, t: seq<X>, u: seq<X>)
    ensures (s + t) + u == s + (t + u)
  {
  }

  /** Appending the handles of the next child's subtree extends a partial preorder of `i` by that subtree. */
  lemma PreorderIntoStep<T>(owner: LinkedTree<T>, a: Arena, i: nat, k: nat, out: seq<Handle<T>>, prev: seq<Handle<T>>)
    requires WellFormed(a) && i < |a| && k < |a[i].children|
    requires prev == out + HandlesOf(owner, [i] + PreorderChildren(a, i, k))
    ensures prev + HandlesOf(owner, Preorder(a, a[i].children[k])) == out + HandlesOf(owner, [i] + PreorderChildren(a, i, k + 1))
  {
    var before := [i] + PreorderChildren(a, i, k);
    var sub := Preorder(a, a[i].children[k]);
    PreorderNextChild(a, i, k);
    HandlesOfAppend(owner, before, sub);
    AppendAssociative(out, HandlesOf(owner, before), HandlesOf(owner, sub));
  }

  class LinkedTree<T> {
    var root: Option<nat>
    var size: nat
    var links: Arena
    var elements: seq<T>

    /** The tree invariant: the arena is a well-formed tree, `size` counts its nodes, and `root` is slot 0 unless the tree is empty. */
    ghost predicate Valid()
      reads this
    {
      && WellFormed(links)
      && |elements| == |links|
      && size == |links|
      && root == (if size == 0 then None else Some(0))
    }

    /** A handle that names this tree as its owner was created by this tree (node constructors are private to the tree). */
    ghost predicate Issued(p: Option<Handle<T>>)
      reads this
    {
      p.Some? && p.value.owner == this ==> p.value.index < |links|
    }

    /** The nodes reachable from the root, in preorder. */
    ghost function Reachable(): seq<nat>
      reads this
      requires Valid()
    {
      if root.None? then [] else Preorder(links, root.value)
    }

    constructor ()
      ensures Valid() && root.None? && size == 0
    {
      root := None;
      size := 0;
      links := [];
      elements := [];
    }

    /** Number of nodes: the counter, which always equals the number of nodes reachable from the root. */
    function Size(): (n: nat)
      reads this
      requires Valid()
      ensures n == |Reachable()|
    {
      if size > 0 then PreorderFromRootComplete(links); size else size
    }

    function IsEmpty(): (b: bool)
      reads this
      requires Valid()
      ensures b <==> root.None?
      ensures b <==> Reachable() == []
    {
      size == 0
    }

    /** The root handle, absent exactly when the tree is empty; the root has no parent and comes first in preorder. */
    function Root(): (r: Option<Handle<T>>)
      reads this
      requires Valid()
      ensures r.None? <==> size == 0
      ensures r.Some? ==> r.value.owner == this && r.value.index < size
                          && links[r.value.index].parent.None?
                          && Reachable()[0] == r.value.index
    {
      if root.None? then None else Some(Handle(this, root.value))
    }

    /**
     * Rejects a null handle and a handle owned by another tree; otherwise
     * gives the slot of the handle's node, which is a node of this tree.
     */
    function Validate(p: Option<Handle<T>>): (r: Result<nat, TreeError>)
      reads this
      requires Issued(p)
      ensures p.None? ==> r == Failure(InvalidNode)
      ensures p.Some? && p.value.owner != this ==> r == Failure(ForeignNode)
      ensures r.Success? <==> p.Some? && p.value.owner == this
      ensures r.Success? ==> r.value == p.value.index && r.value < |links|
    {
      if p.None? then Failure(InvalidNode)
      else if p.value.owner != this then Failure(ForeignNode)
      else Success(p.value.index)
    }

    /** The parent of a node: absent exactly for the root, and otherwise a node that lists it among its children. */
    function Parent(p: Option<Handle<T>>): (r: Result<Option<Handle<T>>, TreeError>)
      reads this
      requires Valid() && Issued(p)
      ensures Validate(p).Failure? ==> r == Failure(Validate(p).error)
      ensures Validate(p).Success? ==> r.Success?
      ensures r.Success? ==> (r.value.None? <==> root == Some(p.value.index))
      ensures r.Success? && r.value.Some? ==>
                r.value.value.owner == this && r.value.value.index < p.value.index
                && p.value.index in links[r.value.value.index].children
    {
      match Validate(p)
      case Failure(e) => Failure(e)
      case Success(i) =>
        match links[i].parent
        case None => Success(None)
        case Some(q) => Success(Some(Handle(this, q)))
    }

    /** A node is external (a leaf) exactly when it has no children. */
    function IsExternal(p: Option<Handle<T>>): (r: Result<bool, TreeError>)
      reads this
      requires Valid() && Issued(p)
      ensures Validate(p).Failure? ==> r == Failure(Validate(p).error)
      ensures Validate(p).Success? ==> r.Success?
      ensures r.Success? ==> (r.value <==> links[p.value.index].children == [])
      ensures r.Success? && r.value ==> TreeArena.Height(links, p.value.index) == 0
    {
      match Validate(p)
      case Failure(e) => Failure(e)
      case Success(i) => Success(links[i].children == [])
    }

    /** `isInternal` is the negation of `isExternal`: the node has at least one child. */
    function IsInternal(p: Option<Handle<T>>): (r: Result<bool, TreeError>)
      reads this
      requires Valid() && Issued(p)
      ensures Validate(p).Failure? ==> r == Failure(Validate(p).error)
      ensures r.Success? <==> IsExternal(p).Success?
      ensures r.Success? ==> r.value == !IsExternal(p).value
      ensures r.Success? ==> (r.value <==> links[p.value.index].children != [])
    {
      match IsExternal(p)
      case Failure(e) => Failure(e)
      case Success(b) => Success(!b)
    }

    /** A node is the root exactly when it is the stored root, which is the one node without a parent. */
    function IsRoot(p: Option<Handle<T>>): (r: Result<bool, TreeError>)
      reads this
      requires Valid() && Issued(p)
      ensures Validate(p).Failure? ==> r == Failure(Validate(p).error)
      ensures Validate(p).Success? ==> r.Success?
      ensures r.Success? ==> (r.value <==> root == Some(p.value.index))
      ensures r.Success? ==> (r.value <==> links[p.value.index].parent.None?)
    {
      match Validate(p)
      case Failure(e) => Failure(e)
      case Success(i) => Success(Some(i) == root)
    }

    /** Establishes the root of an empty tree; a tree that has a root is left unchanged. */
    method AddRoot(e: T) returns (r: Result<Handle<T>, TreeError>)
      requires Valid()
      modifies this
      ensures Valid()
      ensures old(size) != 0 ==> r == Failure(TreeNotEmpty) && unchanged(this)
      ensures old(size) == 0 ==>
                && r == Success(Handle(this, 0))
                && size == 1 && root == Some(0)
                && links == [NodeLinks(None, [])] && elements == [e]
    {
      if !IsEmpty() {
        return Failure(TreeNotEmpty);
      }
      links := [NodeLinks(None, [])];
      elements := [e];
      root := Some(0);
      size := 1;
      r := Success(Handle(this, 0));
    }

    /**
     * Adds a new node holding `e` as the last child of `p`. The new node's
     * parent is `p`, the earlier children of `p` keep their order, `size`
     * grows by one and no other node changes.
     */
    method AddChild(p: Option<Handle<T>>, e: T) returns (r: Result<Handle<T>, TreeError>)
      requires Valid() && Issued(p)
      modifies this
      ensures Valid()
      ensures old(Validate(p)).Failure? ==> r == Failure(old(Validate(p)).error) && unchanged(this)
      ensures old(Validate(p)).Success? ==>
                var i, n := p.value.index, old(size);
                && r == Success(Handle(this, n))
                && size == n + 1 && root == old(root)
                && links == Grow(old(links), i)
                && links[n] == NodeLinks(Some(i), [])
                && links[i].children == old(links[i].children) + [n]
                && (forall j :: 0 <= j < n && j != i ==> links[j] == old(links[j]))
                && elements == old(elements) + [e]
    {
      var v := Validate(p);
      if v.Failure? {
        return Failure(v.error);
      }
      var parent := v.value;
      var child := |links|;
      GrowPreservesTree(links, parent);
      // the new node is created with its parent link set, then the parent adopts it
      links := Attach(links + [NodeLinks(Some(parent), [])], parent, child);
      elements := elements + [e];
      size := size + 1;
      r := Success(Handle(this, child));
    }

    /** Stores `e` at `p` and returns the element it replaces; links, root and size do not change. */
    method Replace(p: Option<Handle<T>>, e: T) returns (r: Result<T, TreeError>)
      requires Valid() && Issued(p)
      modifies this`elements
      ensures Valid()
      ensures Validate(p).Failure? ==> r == Failure(Validate(p).error) && elements == old(elements)
      ensures Validate(p).Success? ==>
                && r == Success(old(elements)[p.value.index])
                && elements == old(elements)[p.value.index := e]
    {
      var v := Validate(p);
      if v.Failure? {
        return Failure(v.error);
      }
      var i := v.value;
      r := Success(elements[i]);
      elements := elements[i := e];
    }

    /** Counts the edges from `p` up to the root by following parent links. */
    method Depth(p: Option<Handle<T>>) returns (r: Result<nat, TreeError>)
      requires Valid() && Issued(p)
      ensures Validate(p).Failure? ==> r == Failure(Validate(p).error)
      ensures Validate(p).Success? ==> r == Success(TreeArena.Depth(links, p.value.index))
      ensures Validate(p).Success? && root == Some(p.value.index) ==> r == Success(0)
    {
      var v := Validate(p);
      if v.Failure? {
        return Failure(v.error);
      }
      var node: nat := v.value;
      var depth: nat := 0;
      while !IsRoot(Some(Handle(this, node))).value
        invariant node < |links|
        invariant depth + TreeArena.Depth(links, node) == TreeArena.Depth(links, v.value)
        decreases node
      {
        node := links[node].parent.value;
        depth := depth + 1;
      }
      r := Success(depth);
    }

    /** Height of the subtree at `p`: 0 for a leaf, otherwise one more than the tallest child. */
    method Height(p: Option<Handle<T>>) returns (r: Result<nat, TreeError>)
      requires Valid() && Issued(p)
      ensures Validate(p).Failure? ==> r == Failure(Validate(p).error)
      ensures Validate(p).Success? ==> r == Success(TreeArena.Height(links, p.value.index))
    {
      var v := Validate(p);
      if v.Failure? {
        return Failure(v.error);
      }
      var h := HeightHelper(v.value);
      r := Success(h);
    }

    method HeightHelper(i: nat) returns (h: nat)
      requires Valid() && i < |links|
      ensures h == TreeArena.Height(links, i)
      decreases |links| - i
    {
      if IsExternal(Some(Handle(this, i))).value {
        return 0;
      }
      var cs := links[i].children;
      var max := 0;
      for k := 0 to |cs|
        invariant max == MaxHeight(links, i, k)
      {
        var hc := HeightHelper(cs[k]);
        max := Max(max, hc);
      }
      h := max + 1;
    }

    /**
     * A fresh snapshot of all nodes in preorder: empty when there is no root;
     * otherwise it starts with the root, has `size` entries, lists every node
     * exactly once, and every node comes before all of its descendants.
     */
    method Nodes() returns (snapshot: seq<Handle<T>>)
      requires Valid()
      ensures snapshot == HandlesOf(this, Reachable())
      ensures |snapshot| == size
      ensures size > 0 ==> snapshot[0] == Handle(this, 0)
      ensures forall x: nat :: multiset(Reachable())[x] == if x < size then 1 else 0
      ensures AncestorsFirst(links, Reachable())
    {
      snapshot := [];
      if root.Some? {
        snapshot := PreorderInto(root.value, snapshot);
        PreorderFromRootComplete(links);
      }
    }

    /** Appends the preorder of the subtree at `i` to `out`. */
    method PreorderInto(i: nat, out: seq<Handle<T>>) returns (out': seq<Handle<T>>)
      requires Valid() && i < |links|
      ensures out' == out + HandlesOf(this, Preorder(links, i))
      decreases |links| - i
    {
      out' := out + [Handle(this, i)];
      var cs := links[i].children;
      for k := 0 to |cs|
        invariant out' == out + HandlesOf(this, [i] + PreorderChildren(links, i, k))
      {
        ghost var prev := out';
        out' := PreorderInto(cs[k], out');
        PreorderIntoStep(this, links, i, k, out, prev);
      }
    }
  }
}
