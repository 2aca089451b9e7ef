/** The abstract shape of the arena: a binary tree whose nodes remember the
    arena slot they occupy, with its keys, its entries, its map and its
    in-order sequence, and the rotation that the arena performs in place. */
module TreeModel {
  import opened SplayTypes

  datatype Tree<V> = Leaf | Branch(left: Tree<V>, idx: nat, key: int, value: V, right: Tree<V>)

  function Child<V>(t: Tree<V>, d: Dir): Tree<V>
    requires t.Branch?
  {
    match d
    case Left => t.left
    case Right => t.right
  }

  function WithChild<V>(t: Tree<V>, d: Dir, c: Tree<V>): (r: Tree<V>)
    requires t.Branch?
    ensures r.Branch? && Child(r, d) == c && Child(r, Flip(d)) == Child(t, Flip(d))
    ensures r.idx == t.idx && r.key == t.key && r.value == t.value
  {
    match d
    case Left => t.(left := c)
    case Right => t.(right := c)
  }

  /** The arena slots the tree occupies. */
  function Indices<V>(t: Tree<V>): set<nat>
  {
    match t
    case Leaf => {}
    case Branch(l, i, _, _, r) => Indices(l) + {i} + Indices(r)
  }

  /** No slot is used twice. */
  predicate Unique<V>(t: Tree<V>)
  {
    match t
    case Leaf => true
    case Branch(l, i, _, _, r) =>
      Unique(l) && Unique(r) && i !in Indices(l) && i !in Indices(r) && Indices(l) !! Indices(r)
  }

  function Size<V>(t: Tree<V>): nat
  {
    match t
    case Leaf => 0
    case Branch(l, _, _, _, r) => Size(l) + 1 + Size(r)
  }

  function Keys<V>(t: Tree<V>): set<int>
  {
    match t
    case Leaf => {}
    case Branch(l, _, k, _, r) => Keys(l) + {k} + Keys(r)
  }

  /** A set of slots all below `n` has at most `n` members. */
  lemma {:induction false} SlotsBound(s: set<nat>, n: nat)
    requires forall i :: i in s ==> i < n
    ensures |s| <= n
  {
    if n > 0 {
      SlotsBound(s - {n - 1}, n - 1);
    }
  }

  /** Binary-search-tree order: smaller keys left, larger keys right. */
  predicate BST<V>(t: Tree<V>)
  {
    match t
    case Leaf => true
    case Branch(l, _, k, _, r) =>
      BST(l) && BST(r) && (forall x :: x in Keys(l) ==> x < k) && (forall x :: x in Keys(r) ==> k < x)
  }

  /** The associative map the tree stands for. */
  function Map<V>(t: Tree<V>): map<int, V>
  {
    match t
    case Leaf => map[]
    case Branch(l, _, k, v, r) => (Map(l) + Map(r))[k := v]
  }

  /** The entries in in-order (left subtree, node, right subtree). */
  function InOrder<V>(t: Tree<V>): seq<(int, V)>
  {
    match t
    case Leaf => []
    case Branch(l, _, k, v, r) => InOrder(l) + [(k, v)] + InOrder(r)
  }

  /** Number of nodes on the longest root-to-leaf path. */
  function Height<V>(t: Tree<V>): nat
  {
    match t
    case Leaf => 0
    case Branch(l, _, _, _, r) => 1 + if Height(l) < Height(r) then Height(r) else Height(l)
  }

  ghost function KeysOfEntries<V>(s: seq<(int, V)>): set<int>
  {
    set e | e in s :: e.0
  }

  predicate StrictlyAscending<V>(s: seq<(int, V)>)
  {
    forall i, j :: 0 <= i < j < |s| ==> s[i].0 < s[j].0
  }

  // ---------------------------------------------------------------------
  // Basic facts

  lemma {:induction false} MapKeys<V>(t: Tree<V>)
    ensures Map(t).Keys == Keys(t)
  {
    match t
    case Leaf =>
    case Branch(l, _, _, _, r) => MapKeys(l); MapKeys(r);
  }

  lemma {:induction false} SizeIndices<V>(t: Tree<V>)
    requires Unique(t)
    ensures |Indices(t)| == Size(t)
  {
    match t
    case Leaf =>
    case Branch(l, i, _, _, r) =>
      SizeIndices(l); SizeIndices(r);
      assert Indices(l) !! {i};
      assert (Indices(l) + {i}) !! Indices(r);
  }

  lemma {:induction false} HeightAtMostSize<V>(t: Tree<V>)
    ensures Height(t) <= Size(t)
    ensures t.Branch? ==> Height(t) >= 1
  {
    match t
    case Leaf =>
    case Branch(l, _, _, _, r) => HeightAtMostSize(l); HeightAtMostSize(r);
  }

  lemma {:induction false} InOrderKeys<V>(t: Tree<V>)
    ensures KeysOfEntries(InOrder(t)) == Keys(t)
    ensures |InOrder(t)| == Size(t)
  {
    match t
    case Leaf =>
    case Branch(l, _, k, v, r) =>
      InOrderKeys(l); InOrderKeys(r);
      var s := InOrder(t);
      assert s == InOrder(l) + [(k, v)] + InOrder(r);
      forall e | e in s ensures e.0 in Keys(t) {
        assert e in InOrder(l) || e == (k, v) || e in InOrder(r);
      }
      forall x | x in Keys(t) ensures x in KeysOfEntries(s) {
        if x in Keys(l) {
          var e :| e in InOrder(l) && e.0 == x;
          assert e in s;
        } else if x in Keys(r) {
          var e :| e in InOrder(r) && e.0 == x;
          assert e in s;
        } else {
          assert (k, v) in s;
        }
      }
  }

  /** Two ascending runs separated by an entry whose key lies between them
      make one ascending run. */
  lemma {:induction false} AscendingJoin<V>(a: seq<(int, V)>, e: (int, V), b: seq<(int, V)>)
    requires StrictlyAscending(a) && StrictlyAscending(b)
    requires forall i :: 0 <= i < |a| ==> a[i].0 < e.0
    requires forall j :: 0 <= j < |b| ==> e.0 < b[j].0
    ensures StrictlyAscending(a + [e] + b)
  {
    var s := a + [e] + b;
    forall i, j | 0 <= i < j < |s| ensures s[i].0 < s[j].0 {
      if j < |a| {
        assert s[i] == a[i] && s[j] == a[j];
      } else if i < |a| {
        assert s[i] == a[i];
        if j > |a| { assert s[j] == b[j - |a| - 1]; }
      } else if i == |a| {
        assert s[j] == b[j - |a| - 1];
      } else {
        assert s[i] == b[i - |a| - 1] && s[j] == b[j - |a| - 1];
      }
    }
  }

  /** In-order traversal of a search tree lists its keys strictly ascending. */
  lemma {:induction false} InOrderSorted<V>(t: Tree<V>)
    requires BST(t)
    ensures StrictlyAscending(InOrder(t))
  {
    match t
    case Leaf =>
    case Branch(l, _, k, v, r) =>
      InOrderSorted(l); InOrderSorted(r);
      InOrderKeys(l); InOrderKeys(r);
      var a, b := InOrder(l), InOrder(r);
      forall i | 0 <= i < |a| ensures a[i].0 < k {
        assert a[i] in a;
        assert a[i].0 in KeysOfEntries(a);
      }
      forall j | 0 <= j < |b| ensures k < b[j].0 {
        assert b[j] in b;
        assert b[j].0 in KeysOfEntries(b);
      }
      AscendingJoin(a, (k, v), b);
  }

  /** In a search tree, an entry is listed in order exactly when it belongs to the map. */
  lemma {:induction false} InOrderIsMap<V>(t: Tree<V>, k: int, v: V)
    requires BST(t)
    ensures (k, v) in InOrder(t) <==> k in Map(t) && Map(t)[k] == v
  {
    match t
    case Leaf =>
    case Branch(l, _, key, value, r) =>
      InOrderIsMap(l, k, v); InOrderIsMap(r, k, v);
      MapKeys(l); MapKeys(r);
      InOrderKeys(l); InOrderKeys(r);
      if (k, v) in InOrder(l) {
        assert k in KeysOfEntries(InOrder(l));
      }
      if (k, v) in InOrder(r) {
        assert k in KeysOfEntries(InOrder(r));
      }
  }

  lemma {:induction false} MapOfBSTNode<V>(t: Tree<V>)
    requires BST(t) && t.Branch?
    ensures forall x :: x in Keys(t.left) ==> x in Map(t) && x in Map(t.left) && Map(t)[x] == Map(t.left)[x]
    ensures forall x :: x in Keys(t.right) ==> x in Map(t) && x in Map(t.right) && Map(t)[x] == Map(t.right)[x]
  {
    MapKeys(t.left); MapKeys(t.right);
    forall x | x in Keys(t.left) ensures x in Map(t) && x in Map(t.left) && Map(t)[x] == Map(t.left)[x] {
      assert x !in Keys(t.right);
    }
  }

  /** Replacing one child: what the new tree is made of. */
  lemma {:induction false} WithChildParts<V>(t: Tree<V>, d: Dir, c: Tree<V>)
    requires t.Branch?
    ensures var w := WithChild(t, d, c); var o := Child(t, Flip(d));
      && Indices(w) == Indices(o) + {t.idx} + Indices(c)
      && Keys(w) == Keys(o) + {t.key} + Keys(c)
      && (Unique(w) <==> Unique(o) && Unique(c) && t.idx !in Indices(o) && t.idx !in Indices(c) && Indices(o) !! Indices(c))
      && (BST(w) <==> BST(o) && BST(c) && OnSide(Keys(c), t.key, d) && OnSide(Keys(o), t.key, Flip(d)))
  {
  }

  lemma {:induction false} TreeParts<V>(t: Tree<V>, d: Dir)
    requires t.Branch?
    ensures t == WithChild(t, d, Child(t, d))
  {
  }

  /** Every key of `ks` lies on side `d` of `k`. */
  predicate OnSide(ks: set<int>, k: int, d: Dir)
  {
    match d
    case Left => forall x :: x in ks ==> x < k
    case Right => forall x :: x in ks ==> k < x
  }

  // ---------------------------------------------------------------------
  // Rotation

  /** The rotation `rotate(upper, d)` performs on the arena, seen on the
      tree: the `d` child moves up, and because the arena swaps the two
      slots' contents, the new subtree root takes the old root's slot and the
      old root moves into the child's slot. */
  function Rotate<V>(t: Tree<V>, d: Dir): (r: Tree<V>)
    requires t.Branch? && Child(t, d).Branch?
    ensures r.Branch? && r.idx == t.idx
    ensures r.key == Child(t, d).key && r.value == Child(t, d).value
  {
    var lower := Child(t, d);
    var upper := WithChild(t, d, Child(lower, Flip(d))).(idx := lower.idx);
    WithChild(lower, Flip(d), upper).(idx := t.idx)
  }

  /** The arena slots of `t` all lie below `n`. */
  predicate Below<V>(t: Tree<V>, n: nat)
  {
    forall i :: i in Indices(t) ==> i < n
  }

  /** Rotation written out for both directions: the lower node's contents
      take the upper slot and the upper node's contents the lower slot. */
  lemma {:induction false} RotateShape<V>(t: Tree<V>, d: Dir)
    requires t.Branch? && Child(t, d).Branch?
    ensures d.Left? ==> (Rotate(t, d) ==
      Branch(t.left.left, t.idx, t.left.key, t.left.value, Branch(t.left.right, t.left.idx, t.key, t.value, t.right)))
    ensures d.Right? ==> (Rotate(t, d) ==
      Branch(Branch(t.left, t.right.idx, t.key, t.value, t.right.left), t.idx, t.right.key, t.right.value, t.right.right))
  {
  }

  // The two trees a single rotation moves between, with the slot of the
  // top kept and the slot of the moved node kept:
  //   LeftHeavy  = ((a, i, k1, b), j, k2, c)
  //   RightHeavy = (a, j, k1, (b, i, k2, c))

  function LeftHeavy<V>(a: Tree<V>, i: nat, k1: int, v1: V, b: Tree<V>, j: nat, k2: int, v2: V, c: Tree<V>): Tree<V>
  {
    Branch(Branch(a, i, k1, v1, b), j, k2, v2, c)
  }

  function RightHeavy<V>(a: Tree<V>, i: nat, k1: int, v1: V, b: Tree<V>, j: nat, k2: int, v2: V, c: Tree<V>): Tree<V>
  {
    Branch(a, j, k1, v1, Branch(b, i, k2, v2, c))
  }

  lemma {:induction false} SwapIndices<V>(a: Tree<V>, i: nat, k1: int, v1: V, b: Tree<V>, j: nat, k2: int, v2: V, c: Tree<V>)
    ensures Indices(LeftHeavy(a, i, k1, v1, b, j, k2, v2, c)) == Indices(RightHeavy(a, i, k1, v1, b, j, k2, v2, c))
    ensures Unique(LeftHeavy(a, i, k1, v1, b, j, k2, v2, c)) == Unique(RightHeavy(a, i, k1, v1, b, j, k2, v2, c))
  {
    var x, y := Branch(a, i, k1, v1, b), Branch(b, i, k2, v2, c);
    assert Indices(x) == Indices(a) + {i} + Indices(b);
    assert Indices(y) == Indices(b) + {i} + Indices(c);
  }

  lemma {:induction false} SwapInOrder<V>(a: Tree<V>, i: nat, k1: int, v1: V, b: Tree<V>, j: nat, k2: int, v2: V, c: Tree<V>)
    ensures InOrder(LeftHeavy(a, i, k1, v1, b, j, k2, v2, c)) == InOrder(RightHeavy(a, i, k1, v1, b, j, k2, v2, c))
  {
    var x, y := Branch(a, i, k1, v1, b), Branch(b, i, k2, v2, c);
    var p, q, r := InOrder(a), InOrder(b), InOrder(c);
    assert InOrder(x) == p + [(k1, v1)] + q;
    assert InOrder(y) == q + [(k2, v2)] + r;
    assert (p + [(k1, v1)] + q) + [(k2, v2)] + r == p + [(k1, v1)] + (q + [(k2, v2)] + r);
  }

  lemma {:induction false} SwapContents<V>(a: Tree<V>, i: nat, k1: int, v1: V, b: Tree<V>, j: nat, k2: int, v2: V, c: Tree<V>)
    ensures Keys(LeftHeavy(a, i, k1, v1, b, j, k2, v2, c)) == Keys(RightHeavy(a, i, k1, v1, b, j, k2, v2, c))
    ensures Size(LeftHeavy(a, i, k1, v1, b, j, k2, v2, c)) == Size(RightHeavy(a, i, k1, v1, b, j, k2, v2, c))
  {
    var x, y := Branch(a, i, k1, v1, b), Branch(b, i, k2, v2, c);
    assert Keys(x) == Keys(a) + {k1} + Keys(b);
    assert Keys(y) == Keys(b) + {k2} + Keys(c);
  }

  lemma {:induction false} SwapOrder<V>(a: Tree<V>, i: nat, k1: int, v1: V, b: Tree<V>, j: nat, k2: int, v2: V, c: Tree<V>)
    ensures BST(LeftHeavy(a, i, k1, v1, b, j, k2, v2, c)) == BST(RightHeavy(a, i, k1, v1, b, j, k2, v2, c))
  {
    var x, y := Branch(a, i, k1, v1, b), Branch(b, i, k2, v2, c);
    assert Keys(x) == Keys(a) + {k1} + Keys(b);
    assert Keys(y) == Keys(b) + {k2} + Keys(c);
  }

  lemma {:induction false} SwapMap<V>(a: Tree<V>, i: nat, k1: int, v1: V, b: Tree<V>, j: nat, k2: int, v2: V, c: Tree<V>)
    requires BST(LeftHeavy(a, i, k1, v1, b, j, k2, v2, c))
    ensures Map(LeftHeavy(a, i, k1, v1, b, j, k2, v2, c)) == Map(RightHeavy(a, i, k1, v1, b, j, k2, v2, c))
  {
    var x, y := Branch(a, i, k1, v1, b), Branch(b, i, k2, v2, c);
    assert Keys(x) == Keys(a) + {k1} + Keys(b);
    MapKeys(a); MapKeys(b); MapKeys(c);
    var lm, rm := Map(LeftHeavy(a, i, k1, v1, b, j, k2, v2, c)), Map(RightHeavy(a, i, k1, v1, b, j, k2, v2, c));
    assert lm == (Map(x) + Map(c))[k2 := v2];
    assert rm == (Map(a) + Map(y))[k1 := v1];
    assert Map(x) == (Map(a) + Map(b))[k1 := v1];
    assert Map(y) == (Map(b) + Map(c))[k2 := v2];
    assert lm.Keys == rm.Keys;
    forall z | z in lm ensures lm[z] == rm[z] {
      if z == k2 {
      } else if z == k1 {
      } else if z in Keys(c) {
        assert z !in Keys(a) && z !in Keys(b);
      } else if z in Keys(b) {
        assert z !in Keys(a);
      }
    }
  }

  /** Rotation keeps the slots, their uniqueness and the in-order sequence. */
  lemma {:induction false} RotatePreserves<V>(t: Tree<V>, d: Dir)
    requires t.Branch? && Child(t, d).Branch?
    ensures Indices(Rotate(t, d)) == Indices(t)
    ensures Unique(t) ==> Unique(Rotate(t, d))
    ensures Keys(Rotate(t, d)) == Keys(t)
    ensures InOrder(Rotate(t, d)) == InOrder(t)
    ensures Size(Rotate(t, d)) == Size(t)
  {
    RotateShape(t, d);
    match d
    case Left =>
      var Branch(Branch(a, li, lk, lv, b), u, k, v, c) := t;
      SwapIndices(a, li, lk, lv, b, u, k, v, c);
      SwapInOrder(a, li, lk, lv, b, u, k, v, c);
      SwapContents(a, li, lk, lv, b, u, k, v, c);
    case Right =>
      var Branch(a, u, k, v, Branch(b, li, lk, lv, c)) := t;
      SwapIndices(a, li, k, v, b, u, lk, lv, c);
      SwapInOrder(a, li, k, v, b, u, lk, lv, c);
      SwapContents(a, li, k, v, b, u, lk, lv, c);
  }

  /** Rotation keeps search-tree order, and with it the map. */
  lemma {:induction false} RotateKeepsOrder<V>(t: Tree<V>, d: Dir)
    requires t.Branch? && Child(t, d).Branch? && BST(t)
    ensures BST(Rotate(t, d))
    ensures Map(Rotate(t, d)) == Map(t)
  {
    RotateShape(t, d);
    match d
    case Left =>
      var Branch(Branch(a, li, lk, lv, b), u, k, v, c) := t;
      SwapOrder(a, li, lk, lv, b, u, k, v, c);
      SwapMap(a, li, lk, lv, b, u, k, v, c);
    case Right =>
      var Branch(a, u, k, v, Branch(b, li, lk, lv, c)) := t;
      SwapOrder(a, li, k, v, b, u, lk, lv, c);
      SwapMap(a, li, k, v, b, u, lk, lv, c);
  }
}
