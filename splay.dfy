/** The arena-backed splay tree: an ordered map from integer keys whose
    lookups and inserts both restructure the tree so that the node they end
    on becomes the root. */
module SplayTree {
  import opened SplayTypes
  import opened TreeModel
  import SplayModel
  import opened SplayFacts
  import opened Arena

  class Splay<V> {
    var root: OptionIdx
    var nodes: seq<Node<V>>
    /** The tree the arena currently spells out. */
    ghost var tree: Tree<V>

    /** The arena, entered at the root, spells out a search tree that uses
        every slot exactly once. */
    ghost predicate Valid()
      reads this
    {
      Represents(nodes, ToOption(root), tree) && WellFormed(tree, |nodes|)
    }

    /** The map the container stands for. */
    ghost function Abs(): map<int, V>
      reads this
      requires Valid()
    {
      Map(tree)
    }

    /** `new`: an empty container. */
    constructor ()
      ensures Valid() && Abs() == map[]
      ensures root == IdxNone && nodes == []
    {
      root := IdxNone;
      nodes := [];
      tree := Leaf;
    }

    /** `child`: the stored child reference of slot `idx` on side `dir`. */
    function ChildIdx(idx: nat, dir: Dir): (r: OptionIdx)
      reads this
      requires idx < |nodes|
      ensures r == NodeChild(nodes[idx], dir)
    {
      match dir
      case Left => nodes[idx].left
      case Right => nodes[idx].right
    }

    /** `set_child`: only the `dir` child reference of slot `idx` changes. */
    method SetChild(idx: nat, dir: Dir, to: OptionIdx)
      requires idx < |nodes|
      modifies this`nodes
      ensures nodes == old(nodes)[idx := NodeWithChild(old(nodes)[idx], dir, to)]
    {
      match dir
      case Left => nodes := nodes[idx := nodes[idx].(left := to)];
      case Right => nodes := nodes[idx := nodes[idx].(right := to)];
    }

    /** `new_node`: append a childless node and return its slot. */
    method NewNode(key: int, value: V) returns (idx: nat)
      modifies this`nodes
      ensures idx == |old(nodes)|
      ensures nodes == old(nodes) + [Node(key, value, IdxNone, IdxNone)]
    {
      nodes := nodes + [Node(key, value, IdxNone, IdxNone)];
      idx := |nodes| - 1;
    }

    /** `rotate`: relink the two slots, then swap their contents, so that the
        subtree at `upper` becomes its rotation, still rooted at `upper`, and
        no slot other than the two swapped ones changes. */
    method Rotate(upper: nat, dir: Dir, ghost t: Tree<V>)
      requires Represents(nodes, Some(upper), t) && Unique(t) && Child(t, dir).Branch?
      modifies this`nodes
      ensures Represents(nodes, Some(upper), TreeModel.Rotate(t, dir))
      ensures |nodes| == |old(nodes)|
      ensures forall i :: 0 <= i < |nodes| && i != upper && i != Child(t, dir).idx ==> nodes[i] == old(nodes)[i]
    {
      ghost var a := nodes;
      RepresentsChild(nodes, upper, t, dir);
      RepresentsChild(nodes, Child(t, dir).idx, Child(t, dir), Flip(dir));
      var lower := ToOption(ChildIdx(upper, dir)).value;

      SetChild(upper, dir, ChildIdx(lower, Flip(dir)));
      SetChild(lower, Flip(dir), OptionIdx(lower));
      nodes := nodes[upper := nodes[lower]][lower := nodes[upper]];

      assert upper != lower by { TreeParts(t, dir); WithChildParts(t, dir, Child(t, dir)); }
      assert Rotated(a, nodes, upper, lower, dir);
      RotatedRepresents(a, nodes, t, dir);
    }

    /** `splay_step`: a two-level path rotates the grandchild up into the
        child's place and then into this node's place, and is reset; a
        shorter path changes nothing. Only slots of this subtree change. */
    method SplayStep(idx: nat, path: Path, ghost t: Tree<V>) returns (path': Path)
      requires Represents(nodes, Some(idx), t) && Unique(t) && SplayModel.Pending(t, path)
      modifies this`nodes
      ensures Represents(nodes, Some(idx), SplayModel.SplayStep(t, path).0)
      ensures path' == SplayModel.SplayStep(t, path).1
      ensures |nodes| == |old(nodes)|
      ensures forall i :: 0 <= i < |nodes| && i !in Indices(t) ==> nodes[i] == old(nodes)[i]
    {
      match path
      case Two(d1, d2) =>
        ghost var a := nodes;
        ghost var nt := Child(t, d1);
        RepresentsChild(nodes, idx, t, d1);
        TreeParts(t, d1);
        WithChildParts(t, d1, nt);
        var next := ToOption(ChildIdx(idx, d1)).value;
        Rotate(next, d2, nt);
        TreeParts(nt, d2);
        WithChildParts(nt, d2, Child(nt, d2));
        ghost var t1 := WithChild(t, d1, TreeModel.Rotate(nt, d2));
        ReattachChild(a, nodes, t, d1, TreeModel.Rotate(nt, d2));
        RotatePreserves(nt, d2);
        WithChildParts(t, d1, TreeModel.Rotate(nt, d2));
        Rotate(idx, d1, t1);
        path' := Empty;
      case _ =>
        path' := path;
    }

    /** `splay_finish`: a one-level path owes one rotation at the root; the
        root slot stays where it is. A two-level path cannot reach here. */
    method SplayFinish(path: Path, ghost t: Tree<V>)
      requires Represents(nodes, ToOption(root), t) && Unique(t)
      requires SplayModel.Pending(t, path) && !path.Two?
      modifies this`nodes
      ensures Represents(nodes, ToOption(root), SplayModel.SplayFinish(t, path))
      ensures |nodes| == |old(nodes)|
    {
      match path
      case Empty =>
      case One(dir) =>
        var r := ToOption(root).value;
        Rotate(r, dir, t);
    }

    /** `visit_inner`: compare with slot `nodeIdx`; on a match owe nothing,
        otherwise descend on the matching side; then pay off a two-level
        path. The subtree rooted at `nodeIdx` becomes the one the model
        gives, still rooted at `nodeIdx`, and only its slots change, beside
        the one slot appended when a new key is inserted. */
    method VisitInner(nodeIdx: nat, c: OrCreate<V>, ghost t: Tree<V>) returns (value: Option<V>, path: Path)
      requires Represents(nodes, Some(nodeIdx), t) && Unique(t)
      requires c.Create? ==> |nodes| < IdxMax
      modifies this`nodes
      ensures var s := SplayModel.VisitInner(t, c, |old(nodes)|);
        Represents(nodes, Some(nodeIdx), s.tree) && value == s.value && path == s.path
      ensures |nodes| == |old(nodes)| + (if SplayModel.Grows(t, c) then 1 else 0)
      ensures forall i :: 0 <= i < |old(nodes)| && i !in Indices(t) ==> nodes[i] == old(nodes)[i]
      decreases t, 1
    {
      ghost var n := |nodes|;
      RepresentsBelow(nodes, Some(nodeIdx), t);
      var key := Key(c);
      var p: Path;
      ghost var h: SplayModel.Visited<V>;
      if key == nodes[nodeIdx].key {
        p, value := Empty, Value(c);
        h := SplayModel.Visited(t, Empty, Value(c));
        assert SplayModel.Found(t, key);
      } else if key < nodes[nodeIdx].key {
        value, p := VisitInnerHelper(nodeIdx, c, Left, t);
        h := SplayModel.VisitInnerHelper(t, c, Left, n);
        VisitInnerHelperSlots(t, c, Left, n);
      } else {
        value, p := VisitInnerHelper(nodeIdx, c, Right, t);
        h := SplayModel.VisitInnerHelper(t, c, Right, n);
        VisitInnerHelperSlots(t, c, Right, n);
      }
      path := SplayStep(nodeIdx, p, h.tree);
    }

    /** `visit_inner_helper`: visit the `dir` child and record the step; with
        no child there, an insert appends a node, links it as the `dir` child
        and owes one rotation, and a lookup stops here. */
    method VisitInnerHelper(nodeIdx: nat, c: OrCreate<V>, dir: Dir, ghost t: Tree<V>) returns (value: Option<V>, path: Path)
      requires Represents(nodes, Some(nodeIdx), t) && Unique(t)
      requires c.Create? ==> |nodes| < IdxMax
      requires Key(c) != t.key && (dir.Left? <==> Key(c) < t.key)
      modifies this`nodes
      ensures var s := SplayModel.VisitInnerHelper(t, c, dir, |old(nodes)|);
        Represents(nodes, Some(nodeIdx), s.tree) && value == s.value && path == s.path
      ensures |nodes| == |old(nodes)| + (if SplayModel.Grows(t, c) then 1 else 0)
      ensures forall i :: 0 <= i < |old(nodes)| && i !in Indices(t) ==> nodes[i] == old(nodes)[i]
      decreases t, 0
    {
      ghost var a := nodes;
      ghost var ct := Child(t, dir);
      RepresentsChild(nodes, nodeIdx, t, dir);
      RepresentsBelow(nodes, Some(nodeIdx), t);
      TreeParts(t, dir);
      WithChildParts(t, dir, ct);
      assert SplayModel.Found(t, Key(c)) == SplayModel.Found(ct, Key(c));
      match ToOption(ChildIdx(nodeIdx, dir))
      case Some(idx) =>
        value, path := VisitInner(idx, c, ct);
        path := Extend(path, dir);
        ReattachChild(a, nodes, t, dir, SplayModel.VisitInner(ct, c, |a|).tree);
      case None =>
        value, path := None, Empty;
        assert !SplayModel.Found(ct, Key(c));
        if c.Create? {
          var node := NewNode(c.k, c.v);
          SetChild(nodeIdx, dir, OptionIdx(node));
          path := One(dir);
          ToOptionOfIndex(node);
          ghost var leaf := Branch(Leaf, node, c.k, c.v, Leaf);
          assert Represents(nodes, Some(node), leaf);
          RelinkChild(a, nodes, t, dir, OptionIdx(node), leaf);
        }
    }

    /** `visit`: on an empty tree an insert creates the root node in slot 0;
        otherwise visit from the root and finish there. The arena ends up
        spelling out the model's result, and the root slot never moves once
        it exists. */
    method Visit(c: OrCreate<V>) returns (value: Option<V>)
      requires Valid()
      requires c.Create? ==> |nodes| < IdxMax
      modifies this
      ensures Valid()
      ensures (tree, value) == SplayModel.Visit(old(tree), c, |old(nodes)|)
      ensures |nodes| == |old(nodes)| + (if SplayModel.Grows(old(tree), c) then 1 else 0)
      ensures old(root) != IdxNone ==> root == old(root)
      ensures old(root) == IdxNone && c.Create? ==> root == OptionIdx(0)
      ensures old(root) == IdxNone && c.Lookup? ==> root == IdxNone && nodes == old(nodes)
    {
      ghost var n := |nodes|;
      VisitFacts(tree, c, n);
      match ToOption(root)
      case Some(r) =>
        RepresentsChild(nodes, r, tree, Left);
        var path: Path;
        value, path := VisitInner(r, c, tree);
        ghost var s := SplayModel.VisitInner(tree, c, n);
        RepresentsBelow(old(nodes), ToOption(root), tree);
        VisitInnerSlots(tree, c, n);
        SplayFinish(path, s.tree);
        tree := SplayModel.SplayFinish(s.tree, s.path);
      case None =>
        value := None;
        match c
        case Lookup(_) =>
        case Create(k, v) =>
          assert 0 in Indices(tree) <==> 0 < n;
          var idx := NewNode(k, v);
          root := OptionIdx(idx);
          tree := Branch(Leaf, idx, k, v, Leaf);
          ToOptionOfIndex(idx);
    }

    /** `get`: splay toward `key` and answer from the root. The answer is
        the map's; the map and the arena's length stay as they were; on a
        non-empty tree the root slot stays put and now holds the last node of
        the search path, which is `key` itself when present. */
    method Get(key: int) returns (r: Option<V>)
      requires Valid()
      modifies this
      ensures Valid()
      ensures r == (if key in old(Abs()) then Some(old(Abs())[key]) else None)
      ensures Abs() == old(Abs()) && |nodes| == |old(nodes)|
      ensures (tree, r) == SplayModel.Get(old(tree), key, |old(nodes)|)
      ensures old(root) == IdxNone ==> root == IdxNone && nodes == old(nodes)
      ensures old(root) != IdxNone ==>
        root == old(root) && root.raw < |nodes| && nodes[root.raw].key == SplayModel.LastKey(old(tree), key)
    {
      GetFacts(tree, key, |nodes|);
      var _ := Visit(Lookup(key));
      match ToOption(root)
      case Some(i) =>
        RepresentsChild(nodes, i, tree, Left);
        if nodes[i].key == key {
          r := Some(nodes[i].value);
        } else {
          r := None;
        }
      case None =>
        r := None;
    }

    /** `set`: splay toward `key`, inserting it when absent; when it was
        present the visit hands the value back and it overwrites the root's.
        Afterwards the map maps `key` to `value`, the root holds exactly
        that entry, and the arena grew by one exactly when `key` was new. */
    method Set(key: int, value: V)
      requires Valid() && |nodes| < IdxMax
      modifies this
      ensures Valid()
      ensures Abs() == old(Abs())[key := value]
      ensures tree == SplayModel.Set(old(tree), key, value, |old(nodes)|)
      ensures |nodes| == |old(nodes)| + (if key in old(Abs()) then 0 else 1)
      ensures root != IdxNone && root.raw < |nodes|
      ensures nodes[root.raw].key == key && nodes[root.raw].value == value
      ensures old(root) != IdxNone ==> root == old(root)
      ensures old(root) == IdxNone ==> root == OptionIdx(0)
    {
      SetFacts(tree, key, value, |nodes|);
      VisitFacts(tree, Create(key, value), |nodes|);
      var back := Visit(Create(key, value));
      if back.Some? {
        var r := ToOption(root).value;
        ghost var a := nodes;
        RepresentsChild(nodes, r, tree, Left);
        RepresentsChild(nodes, r, tree, Right);
        nodes := nodes[r := nodes[r].(value := back.value)];
        ghost var u := tree.(value := back.value);
        assert Unique(tree);
        RepresentsFrameExcept(a, nodes, ToOption(a[r].left), tree.left, r, r);
        RepresentsFrameExcept(a, nodes, ToOption(a[r].right), tree.right, r, r);
        RepresentsNode(nodes, u, Left);
        tree := u;
      }
      RepresentsChild(nodes, root.raw, tree, Left);
    }

    /** `node_depth`: the height of the subtree the reference enters. */
    function NodeDepth(idx: OptionIdx, ghost t: Tree<V>): (d: nat)
      reads this
      requires Represents(nodes, ToOption(idx), t)
      ensures d == Height(t)
      decreases t
    {
      match ToOption(idx)
      case None => 0
      case Some(i) =>
        var l := NodeDepth(nodes[i].left, t.left);
        var r := NodeDepth(nodes[i].right, t.right);
        1 + if l < r then r else l
    }

    /** `depth`: the height of the whole tree; 0 when empty, at most the
        number of nodes. */
    function Depth(): (d: nat)
      reads this
      requires Valid()
      ensures d == Height(tree)
      ensures d <= |nodes|
      ensures root == IdxNone <==> d == 0
    {
      HeightAtMostSize(tree);
      SizeIndices(tree);
      RepresentsBelow(nodes, ToOption(root), tree);
      SlotsBound(Indices(tree), |nodes|);
      NodeDepth(root, tree)
    }
  }
}
