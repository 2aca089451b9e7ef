/** How a node arena stands for a tree: a child reference names the arena
    slot of the child's root, and each slot's key and value are those of the
    tree node that occupies it. */
module Arena {
  import opened SplayTypes
  import opened TreeModel

  /** `nodes`, entered at `oi`, spells out `t`. */
  ghost predicate Represents<V>(nodes: seq<Node<V>>, oi: Option<nat>, t: Tree<V>)
    decreases t
  {
    match t
    case Leaf => oi.None?
    case Branch(l, i, k, v, r) =>
      && oi == Some(i) && i < |nodes|
      && nodes[i].key == k && nodes[i].value == v
      && Represents(nodes, ToOption(nodes[i].left), l)
      && Represents(nodes, ToOption(nodes[i].right), r)
  }

  /** Every slot a represented tree occupies lies inside the arena. */
  lemma {:induction false} RepresentsBelow<V>(nodes: seq<Node<V>>, oi: Option<nat>, t: Tree<V>)
    requires Represents(nodes, oi, t)
    ensures Below(t, |nodes|)
    decreases t
  {
    match t
    case Leaf =>
    case Branch(l, i, _, _, r) =>
      RepresentsBelow(nodes, ToOption(nodes[i].left), l);
      RepresentsBelow(nodes, ToOption(nodes[i].right), r);
  }

  /** Only the slots a tree occupies matter to it. */
  lemma {:induction false} RepresentsFrame<V>(a: seq<Node<V>>, b: seq<Node<V>>, oi: Option<nat>, t: Tree<V>)
    requires Represents(a, oi, t)
    requires forall i :: i in Indices(t) ==> i < |a| && i < |b| && b[i] == a[i]
    ensures Represents(b, oi, t)
    decreases t
  {
    match t
    case Leaf =>
    case Branch(l, i, _, _, r) =>
      assert i in Indices(t);
      RepresentsFrame(a, b, ToOption(a[i].left), l);
      RepresentsFrame(a, b, ToOption(a[i].right), r);
  }

  /** The stored `d` child of a represented node represents its `d` subtree. */
  lemma {:induction false} RepresentsChild<V>(nodes: seq<Node<V>>, i: nat, t: Tree<V>, d: Dir)
    requires Represents(nodes, Some(i), t)
    ensures t.Branch? && t.idx == i && i < |nodes|
    ensures Represents(nodes, ToOption(NodeChild(nodes[i], d)), Child(t, d))
  {
  }

  /** A slot whose contents match a node and whose two child references
      represent its subtrees represents that node. */
  lemma {:induction false} RepresentsNode<V>(nodes: seq<Node<V>>, t: Tree<V>, d: Dir)
    requires t.Branch? && t.idx < |nodes|
    requires nodes[t.idx].key == t.key && nodes[t.idx].value == t.value
    requires Represents(nodes, ToOption(NodeChild(nodes[t.idx], d)), Child(t, d))
    requires Represents(nodes, ToOption(NodeChild(nodes[t.idx], Flip(d))), Child(t, Flip(d)))
    ensures Represents(nodes, Some(t.idx), t)
  {
  }

  /** Changing two slots a tree does not occupy leaves it represented. */
  lemma {:induction false} RepresentsFrameExcept<V>(a: seq<Node<V>>, b: seq<Node<V>>, oi: Option<nat>, t: Tree<V>, x: nat, y: nat)
    requires Represents(a, oi, t) && x !in Indices(t) && y !in Indices(t)
    requires |b| == |a| && forall i :: 0 <= i < |a| && i != x && i != y ==> b[i] == a[i]
    ensures Represents(b, oi, t)
  {
    RepresentsBelow(a, oi, t);
    RepresentsFrame(a, b, oi, t);
  }

  /** The arena after `rotate(upper, d)` with `lower` the `d` child of
      `upper`: `upper` now holds the lower node's contents with `lower` as its
      other child, and `lower` holds the upper node's contents with the lower
      node's former inner child. Every other slot is as before. */
  ghost predicate Rotated<V>(a: seq<Node<V>>, b: seq<Node<V>>, upper: nat, lower: nat, d: Dir)
  {
    && upper < |a| && lower < |a| && |b| == |a|
    && b[upper] == NodeWithChild(a[lower], Flip(d), OptionIdx(lower))
    && b[lower] == NodeWithChild(a[upper], d, NodeChild(a[lower], Flip(d)))
    && forall i :: 0 <= i < |a| && i != upper && i != lower ==> b[i] == a[i]
  }

  /** The relinking and the swap of `rotate` carry out the tree rotation. */
  lemma {:induction false} RotatedRepresents<V>(a: seq<Node<V>>, b: seq<Node<V>>, t: Tree<V>, d: Dir)
    requires t.Branch? && Child(t, d).Branch? && Unique(t)
    requires Represents(a, Some(t.idx), t)
    requires Rotated(a, b, t.idx, Child(t, d).idx, d)
    ensures Represents(b, Some(t.idx), Rotate(t, d))
  {
    var upper, x := t.idx, Child(t, d);
    var lower := x.idx;
    RepresentsChild(a, upper, t, d);
    RepresentsChild(a, upper, t, Flip(d));
    RepresentsChild(a, lower, x, d);
    RepresentsChild(a, lower, x, Flip(d));
    TreeParts(t, d);
    WithChildParts(t, d, x);
    TreeParts(x, d);
    WithChildParts(x, d, Child(x, d));
    var ta, tb, tc := Child(t, Flip(d)), Child(x, Flip(d)), Child(x, d);
    RepresentsFrameExcept(a, b, ToOption(NodeChild(a[upper], Flip(d))), ta, upper, lower);
    RepresentsFrameExcept(a, b, ToOption(NodeChild(a[lower], Flip(d))), tb, upper, lower);
    RepresentsFrameExcept(a, b, ToOption(NodeChild(a[lower], d)), tc, upper, lower);
    var r := Rotate(t, d);
    RotateShape(t, d);
    var moved := Child(r, Flip(d));
    assert ToOption(OptionIdx(lower)) == Some(lower);
    RepresentsNode(b, moved, d);
    RepresentsNode(b, r, d);
  }

  /** When only the slots of the `d` subtree changed (and the arena may have
      grown), and the stored `d` reference now represents `c`, the node
      represents itself with `c` as its `d` subtree. */
  lemma {:induction false} ReattachChild<V>(a: seq<Node<V>>, b: seq<Node<V>>, t: Tree<V>, d: Dir, c: Tree<V>)
    requires t.Branch? && Unique(t) && Represents(a, Some(t.idx), t)
    requires |a| <= |b| && forall i :: 0 <= i < |a| && i !in Indices(Child(t, d)) ==> b[i] == a[i]
    requires Represents(b, ToOption(NodeChild(a[t.idx], d)), c)
    ensures Represents(b, Some(t.idx), WithChild(t, d, c))
  {
    TreeParts(t, d);
    WithChildParts(t, d, Child(t, d));
    RepresentsChild(a, t.idx, t, Flip(d));
    var o := Child(t, Flip(d));
    RepresentsBelow(a, ToOption(NodeChild(a[t.idx], Flip(d))), o);
    RepresentsFrame(a, b, ToOption(NodeChild(a[t.idx], Flip(d))), o);
    RepresentsNode(b, WithChild(t, d, c), d);
  }

  /** When the `d` reference of the node was redirected to `to`, which
      represents `c`, and otherwise only slots of the `d` subtree changed,
      the node represents itself with `c` as its `d` subtree. */
  lemma {:induction false} RelinkChild<V>(a: seq<Node<V>>, b: seq<Node<V>>, t: Tree<V>, d: Dir, to: OptionIdx, c: Tree<V>)
    requires t.Branch? && Unique(t) && Represents(a, Some(t.idx), t)
    requires |a| <= |b| && b[t.idx] == NodeWithChild(a[t.idx], d, to)
    requires forall i :: 0 <= i < |a| && i != t.idx && i !in Indices(Child(t, d)) ==> b[i] == a[i]
    requires Represents(b, ToOption(to), c)
    ensures Represents(b, Some(t.idx), WithChild(t, d, c))
  {
    TreeParts(t, d);
    WithChildParts(t, d, Child(t, d));
    RepresentsChild(a, t.idx, t, Flip(d));
    var o := Child(t, Flip(d));
    RepresentsBelow(a, ToOption(NodeChild(a[t.idx], Flip(d))), o);
    RepresentsFrame(a, b, ToOption(NodeChild(a[t.idx], Flip(d))), o);
    RepresentsNode(b, WithChild(t, d, c), d);
  }
}
