/** The splay engine on trees: one visit searches toward a key, inserting it
    when asked, and rotates the node it ends on toward the top, two levels
    at a time on the way back up and one last level at the very top. The
    arena methods of the Splay class follow these functions step by step. */
module SplayModel {
  import opened SplayTypes
  import opened TreeModel

  /** What visiting a subtree leaves behind: the restructured subtree, the
      rotations still owed by the levels above, and the value handed back. */
  datatype Visited<V> = Visited(tree: Tree<V>, path: Path, value: Option<V>)

  /** `p` can be carried out at the top of `t`: every node it moves exists. */
  predicate Pending<V>(t: Tree<V>, p: Path)
  {
    t.Branch? &&
    match p
    case Empty => true
    case One(d) => Child(t, d).Branch?
    case Two(d1, d2) => Child(t, d1).Branch? && Child(Child(t, d1), d2).Branch?
  }

  /** The node of `t` that the rotations owed in `p` would bring up to the top. */
  function Pended<V>(t: Tree<V>, p: Path): (r: Tree<V>)
    requires Pending(t, p)
    ensures r.Branch?
  {
    match p
    case Empty => t
    case One(d) => Child(t, d)
    case Two(d1, d2) => Child(Child(t, d1), d2)
  }

  /** `splay_step`: a two-level path is paid off by rotating the grandchild
      into the child's place and then into this node's place; shorter paths
      are left for the levels above. */
  function SplayStep<V>(t: Tree<V>, p: Path): (r: (Tree<V>, Path))
    requires Pending(t, p)
    ensures Pending(r.0, r.1) && !r.1.Two? && r.0.idx == t.idx
    ensures p.Two? ==> r.1 == Empty
    ensures !p.Two? ==> r == (t, p)
  {
    match p
    case Two(d1, d2) =>
      var next := Child(t, d1);
      var t1 := WithChild(t, d1, Rotate(next, d2));
      (Rotate(t1, d1), Empty)
    case _ => (t, p)
  }

  /** `splay_finish`: the one rotation a one-level path still owes, at the root. */
  function SplayFinish<V>(t: Tree<V>, p: Path): (r: Tree<V>)
    requires Pending(t, p) && !p.Two?
    ensures r.Branch? && r.idx == t.idx
    ensures r.key == Pended(t, p).key && r.value == Pended(t, p).value
  {
    match p
    case Empty => t
    case One(d) => Rotate(t, d)
  }

  /** `visit_inner`: compare with this node, go down one side (or stop),
      then pay off any two-level path. The path a caller hands in is always
      empty at this point, so it is not a parameter here. */
  function VisitInner<V>(t: Tree<V>, c: OrCreate<V>, n: nat): (r: Visited<V>)
    requires t.Branch?
    ensures Pending(r.tree, r.path) && !r.path.Two? && r.tree.idx == t.idx
    decreases t, 1
  {
    var k := Key(c);
    var s := if k == t.key then Visited(t, Empty, Value(c))
             else if k < t.key then VisitInnerHelper(t, c, Left, n)
             else VisitInnerHelper(t, c, Right, n);
    var step := SplayStep(s.tree, s.path);
    Visited(step.0, step.1, s.value)
  }

  /** `visit_inner_helper`: descend into the `d` child, recording the step on
      the path; with no child there, an insert hangs a new node in slot `n`
      (the arena's length) and owes the one rotation that lifts it. */
  function VisitInnerHelper<V>(t: Tree<V>, c: OrCreate<V>, d: Dir, n: nat): (r: Visited<V>)
    requires t.Branch?
    ensures Pending(r.tree, r.path) && r.tree.idx == t.idx
    decreases t, 0
  {
    var ch := if d.Left? then t.left else t.right;
    if ch.Branch? then
      var s := VisitInner(ch, c, n);
      Visited(WithChild(t, d, s.tree), Extend(s.path, d), s.value)
    else
      match c
      case Create(k, v) => Visited(WithChild(t, d, Branch(Leaf, n, k, v, Leaf)), One(d), None)
      case Lookup(_) => Visited(t, Empty, None)
  }

  /** `visit`: an empty tree gets its first node in slot `n` on insert;
      otherwise visit from the root and finish at the root. */
  function Visit<V>(t: Tree<V>, c: OrCreate<V>, n: nat): (r: (Tree<V>, Option<V>))
    ensures r.0.Branch? <==> t.Branch? || c.Create?
    ensures t.Branch? ==> r.0.idx == t.idx
    ensures t.Leaf? && c.Create? ==> r.0 == Branch(Leaf, n, c.k, c.v, Leaf)
  {
    if t.Leaf? then
      match c
      case Lookup(_) => (Leaf, None)
      case Create(k, v) => (Branch(Leaf, n, k, v, Leaf), None)
    else
      var s := VisitInner(t, c, n);
      (SplayFinish(s.tree, s.path), s.value)
  }

  /** `get`: splay toward `k`, then answer from the root. */
  function Get<V>(t: Tree<V>, k: int, n: nat): (r: (Tree<V>, Option<V>))
  {
    var u := Visit(t, Lookup(k), n).0;
    (u, if u.Branch? && u.key == k then Some(u.value) else None)
  }

  /** `set`: splay toward `k`, inserting it if absent; if it was present the
      visit hands the new value back and it overwrites the root's value. */
  function Set<V>(t: Tree<V>, k: int, v: V, n: nat): (r: Tree<V>)
    ensures r.Branch?
  {
    var (u, back) := Visit(t, Create(k, v), n);
    if back.Some? then u.(value := back.value) else u
  }

  // ---------------------------------------------------------------------
  // The search path

  /** `k` lies on its own search path (found by comparisons alone). */
  predicate Found<V>(t: Tree<V>, k: int)
  {
    match t
    case Leaf => false
    case Branch(l, _, key, _, r) => k == key || (k < key && Found(l, k)) || (key < k && Found(r, k))
  }

  /** The key of the last node on the search path for `k`. */
  function LastKey<V>(t: Tree<V>, k: int): (r: int)
    requires t.Branch?
    ensures r in Keys(t)
    ensures Found(t, k) ==> r == k
    ensures !Found(t, k) ==> r != k
  {
    if k == t.key then t.key
    else if k < t.key then (if t.left.Leaf? then assert !Found(t.left, k); t.key else LastKey(t.left, k))
    else (if t.right.Leaf? then assert !Found(t.right, k); t.key else LastKey(t.right, k))
  }

  /** A visit with `c` adds a node exactly when it inserts a key not yet there. */
  predicate Grows<V>(t: Tree<V>, c: OrCreate<V>)
  {
    c.Create? && !Found(t, Key(c))
  }

  /** The key that a visit with `c` brings to the top. */
  function Target<V>(t: Tree<V>, c: OrCreate<V>): int
    requires t.Branch?
  {
    if c.Create? then Key(c) else LastKey(t, Key(c))
  }

  /** In a search tree, the search path finds exactly the keys present. */
  lemma {:induction false} FoundIffPresent<V>(t: Tree<V>, k: int)
    requires BST(t)
    ensures Found(t, k) <==> k in Keys(t)
  {
    match t
    case Leaf =>
    case Branch(l, _, key, _, r) => FoundIffPresent(l, k); FoundIffPresent(r, k);
  }

  lemma {:induction false} FoundInKeys<V>(t: Tree<V>, k: int)
    ensures Found(t, k) ==> k in Keys(t)
  {
    match t
    case Leaf =>
    case Branch(l, _, key, _, r) => FoundInKeys(l, k); FoundInKeys(r, k);
  }
}
