/** What one visit does to a tree: it keeps the slots distinct and adds at
    most the one new slot, keeps search-tree order, changes the map only by
    the insert, and brings the searched-for node to the top. */
module SplayFacts {
  import opened SplayTypes
  import opened TreeModel
  import opened SplayModel

  // ---------------------------------------------------------------------
  // Replacing a child

  lemma {:induction false} MapWithSameChild<V>(t: Tree<V>, d: Dir, c: Tree<V>)
    requires t.Branch? && Map(c) == Map(Child(t, d))
    ensures Map(WithChild(t, d, c)) == Map(t)
  {
  }

  lemma {:induction false} MapWithGrownChild<V>(t: Tree<V>, d: Dir, c: Tree<V>, k: int, v: V)
    requires t.Branch? && BST(t) && OnSide({k}, t.key, d)
    requires Map(c) == Map(Child(t, d))[k := v]
    ensures Map(WithChild(t, d, c)) == Map(t)[k := v]
  {
    var o := Child(t, Flip(d));
    MapKeys(o);
    assert k !in Map(o) && k != t.key by {
      match d
      case Left =>
      case Right =>
    }
    UpdateBesideUnion(Map(Child(t, d)), Map(o), k, v, t.key, t.value);
    match d
    case Left =>
      assert Map(WithChild(t, d, c)) == (Map(t.left)[k := v] + Map(o))[t.key := t.value];
    case Right =>
      assert Map(WithChild(t, d, c)) == (Map(o) + Map(t.right)[k := v])[t.key := t.value];
  }

  /** Updating one operand of a union at a key the other operand and the
      outer update do not touch is updating the result. */
  lemma UpdateBesideUnion<V>(m: map<int, V>, o: map<int, V>, k: int, v: V, x: int, w: V)
    requires k !in o && k != x
    ensures (m[k := v] + o)[x := w] == (m + o)[x := w][k := v]
    ensures (o + m[k := v])[x := w] == (o + m)[x := w][k := v]
  {
  }

  // ---------------------------------------------------------------------
  // One splay step and the finishing rotation

  /** A splay step keeps the slots, the keys, search-tree order and the map, and
      the node it owes a lift to is still the one owed (or now on top). */
  lemma {:induction false} SplayStepFacts<V>(t: Tree<V>, p: Path)
    requires Pending(t, p)
    ensures var (u, q) := SplayStep(t, p);
      && Indices(u) == Indices(t) && Keys(u) == Keys(t)
      && (Unique(t) ==> Unique(u))
      && (BST(t) ==> BST(u) && Map(u) == Map(t))
      && Pended(u, q).key == Pended(t, p).key && Pended(u, q).value == Pended(t, p).value
  {
    match p
    case Empty =>
    case One(_) =>
    case Two(d1, d2) =>
      var next := Child(t, d1);
      var rn := Rotate(next, d2);
      var t1 := WithChild(t, d1, rn);
      RotatePreserves(next, d2);
      TreeParts(t, d1);
      WithChildParts(t, d1, next);
      WithChildParts(t, d1, rn);
      assert Indices(t1) == Indices(t) && Keys(t1) == Keys(t);
      assert Unique(t) ==> Unique(t1);
      if BST(t) {
        RotateKeepsOrder(next, d2);
        assert BST(t1);
        MapWithSameChild(t, d1, rn);
        RotateKeepsOrder(t1, d1);
      }
      RotatePreserves(t1, d1);
  }

  /** The finishing rotation keeps slots, keys, order and map. */
  lemma {:induction false} SplayFinishFacts<V>(t: Tree<V>, p: Path)
    requires Pending(t, p) && !p.Two?
    ensures var u := SplayFinish(t, p);
      && Indices(u) == Indices(t) && Keys(u) == Keys(t)
      && (Unique(t) ==> Unique(u))
      && (BST(t) ==> BST(u) && Map(u) == Map(t))
  {
    match p
    case Empty =>
    case One(d) =>
      RotatePreserves(t, d);
      if BST(t) { RotateKeepsOrder(t, d); }
  }

  lemma {:induction false} PendedAfterExtend<V>(t: Tree<V>, d: Dir, c: Tree<V>, p: Path)
    requires t.Branch? && Pending(c, p) && !p.Two?
    ensures Pending(WithChild(t, d, c), Extend(p, d))
    ensures Pended(WithChild(t, d, c), Extend(p, d)) == Pended(c, p)
  {
  }

  // ---------------------------------------------------------------------
  // Keys, the returned value and the node brought up

  /** A visit adds at most the key it inserts, hands back the insert's value
      exactly when the key was already on the search path, and owes the lift
      of the node holding the target key. */
  lemma {:induction false} VisitInnerKeys<V>(t: Tree<V>, c: OrCreate<V>, n: nat)
    requires t.Branch?
    ensures var s := VisitInner(t, c, n);
      && Keys(s.tree) == Keys(t) + (if c.Create? then {Key(c)} else {})
      && s.value == (if c.Create? && Found(t, Key(c)) then Some(c.v) else None)
      && Pended(s.tree, s.path).key == Target(t, c)
    decreases t, 1
  {
    var k := Key(c);
    var h := if k == t.key then Visited(t, Empty, Value(c))
             else if k < t.key then VisitInnerHelper(t, c, Left, n)
             else VisitInnerHelper(t, c, Right, n);
    if k == t.key {
      assert Found(t, k);
    } else if k < t.key {
      VisitInnerHelperKeys(t, c, Left, n);
    } else {
      VisitInnerHelperKeys(t, c, Right, n);
    }
    SplayStepFacts(h.tree, h.path);
  }

  lemma {:induction false} VisitInnerHelperKeys<V>(t: Tree<V>, c: OrCreate<V>, d: Dir, n: nat)
    requires t.Branch? && Key(c) != t.key && (d.Left? <==> Key(c) < t.key)
    ensures var s := VisitInnerHelper(t, c, d, n);
      && Keys(s.tree) == Keys(t) + (if c.Create? then {Key(c)} else {})
      && s.value == (if c.Create? && Found(t, Key(c)) then Some(c.v) else None)
      && Pended(s.tree, s.path).key == Target(t, c)
    decreases t, 0
  {
    var ch := Child(t, d);
    TreeParts(t, d);
    WithChildParts(t, d, ch);
    assert Found(t, Key(c)) == Found(ch, Key(c));
    if ch.Branch? {
      var s := VisitInner(ch, c, n);
      VisitInnerKeys(ch, c, n);
      WithChildParts(t, d, s.tree);
      PendedAfterExtend(t, d, s.tree, s.path);
      assert c.Lookup? ==> LastKey(t, Key(c)) == LastKey(ch, Key(c));
    } else {
      assert !Found(ch, Key(c));
      match c
      case Create(k, v) =>
        WithChildParts(t, d, Branch(Leaf, n, k, v, Leaf));
      case Lookup(k) =>
        assert LastKey(t, k) == t.key;
    }
  }

  // ---------------------------------------------------------------------
  // Slots

  /** A visit keeps every slot once and adds slot `n` exactly when it inserts. */
  lemma {:induction false} VisitInnerSlots<V>(t: Tree<V>, c: OrCreate<V>, n: nat)
    requires t.Branch? && Unique(t) && n !in Indices(t)
    ensures var s := VisitInner(t, c, n);
      && Indices(s.tree) == Indices(t) + (if Grows(t, c) then {n} else {})
      && Unique(s.tree)
    decreases t, 1
  {
    var k := Key(c);
    var h := if k == t.key then Visited(t, Empty, Value(c))
             else if k < t.key then VisitInnerHelper(t, c, Left, n)
             else VisitInnerHelper(t, c, Right, n);
    if k == t.key {
      assert Found(t, k);
    } else if k < t.key {
      VisitInnerHelperSlots(t, c, Left, n);
    } else {
      VisitInnerHelperSlots(t, c, Right, n);
    }
    SplayStepFacts(h.tree, h.path);
  }

  lemma {:induction false} VisitInnerHelperSlots<V>(t: Tree<V>, c: OrCreate<V>, d: Dir, n: nat)
    requires t.Branch? && Unique(t) && n !in Indices(t)
    requires Key(c) != t.key && (d.Left? <==> Key(c) < t.key)
    ensures var s := VisitInnerHelper(t, c, d, n);
      && Indices(s.tree) == Indices(t) + (if Grows(t, c) then {n} else {})
      && Unique(s.tree)
    decreases t, 0
  {
    var ch := Child(t, d);
    if ch.Branch? {
      var s := VisitInner(ch, c, n);
      assert Found(t, Key(c)) == Found(ch, Key(c));
      VisitInnerSlots(ch, c, n);
      ReplaceChildSlots(t, d, s.tree, if Grows(t, c) then {n} else {});
    } else {
      HangSlots(t, c, d, n);
    }
  }

  /** At a missing child, an insert hangs slot `n` and a lookup changes nothing. */
  lemma {:induction false} HangSlots<V>(t: Tree<V>, c: OrCreate<V>, d: Dir, n: nat)
    requires t.Branch? && Unique(t) && n !in Indices(t)
    requires Key(c) != t.key && (d.Left? <==> Key(c) < t.key) && Child(t, d).Leaf?
    ensures var s := VisitInnerHelper(t, c, d, n);
      && Indices(s.tree) == Indices(t) + (if Grows(t, c) then {n} else {})
      && Unique(s.tree)
  {
    var ch := Child(t, d);
    assert Found(t, Key(c)) == Found(ch, Key(c));
    assert !Found(ch, Key(c));
    match c
    case Create(k, v) =>
      ReplaceChildSlots(t, d, Branch(Leaf, n, k, v, Leaf), {n});
    case Lookup(k) =>
  }

  /** Putting in place of the `d` child a tree with the same slots plus
      `extra`, none of them used elsewhere, keeps every slot used once. */
  lemma {:induction false} ReplaceChildSlots<V>(t: Tree<V>, d: Dir, c: Tree<V>, extra: set<nat>)
    requires t.Branch? && Unique(t) && Unique(c)
    requires Indices(c) == Indices(Child(t, d)) + extra && extra !! Indices(t)
    ensures Indices(WithChild(t, d, c)) == Indices(t) + extra
    ensures Unique(WithChild(t, d, c))
  {
    TreeParts(t, d);
    WithChildParts(t, d, Child(t, d));
    WithChildParts(t, d, c);
  }

  // ---------------------------------------------------------------------
  // Order and the map

  /** A visit keeps search-tree order and changes the map only by the insert. */
  lemma {:induction false} VisitInnerOrder<V>(t: Tree<V>, c: OrCreate<V>, n: nat)
    requires t.Branch? && BST(t)
    ensures var s := VisitInner(t, c, n);
      && BST(s.tree)
      && Map(s.tree) == (if Grows(t, c) then Map(t)[Key(c) := c.v] else Map(t))
    decreases t, 1
  {
    var k := Key(c);
    var h := if k == t.key then Visited(t, Empty, Value(c))
             else if k < t.key then VisitInnerHelper(t, c, Left, n)
             else VisitInnerHelper(t, c, Right, n);
    if k == t.key {
      assert Found(t, k);
    } else if k < t.key {
      VisitInnerHelperOrder(t, c, Left, n);
    } else {
      VisitInnerHelperOrder(t, c, Right, n);
    }
    SplayStepFacts(h.tree, h.path);
  }

  lemma {:induction false} VisitInnerHelperOrder<V>(t: Tree<V>, c: OrCreate<V>, d: Dir, n: nat)
    requires t.Branch? && BST(t)
    requires Key(c) != t.key && (d.Left? <==> Key(c) < t.key)
    ensures var s := VisitInnerHelper(t, c, d, n);
      && BST(s.tree)
      && Map(s.tree) == (if Grows(t, c) then Map(t)[Key(c) := c.v] else Map(t))
    decreases t, 0
  {
    var ch := Child(t, d);
    assert Found(t, Key(c)) == Found(ch, Key(c));
    assert OnSide({Key(c)}, t.key, d);
    if ch.Branch? {
      var s := VisitInner(ch, c, n);
      VisitInnerOrder(ch, c, n);
      VisitInnerKeys(ch, c, n);
      ReplaceChildOrder(t, d, s.tree, if c.Create? then {Key(c)} else {});
      if Grows(t, c) {
        MapWithGrownChild(t, d, s.tree, Key(c), c.v);
      } else {
        MapWithSameChild(t, d, s.tree);
      }
    } else {
      assert !Found(ch, Key(c));
      match c
      case Create(k, v) =>
        var leaf := Branch(Leaf, n, k, v, Leaf);
        ReplaceChildOrder(t, d, leaf, {k});
        assert Map(leaf) == Map(ch)[k := v];
        MapWithGrownChild(t, d, leaf, k, v);
      case Lookup(k) =>
    }
  }

  /** Putting in place of the `d` child a search tree with the same keys plus
      some on the same side keeps search-tree order. */
  lemma {:induction false} ReplaceChildOrder<V>(t: Tree<V>, d: Dir, c: Tree<V>, extra: set<int>)
    requires t.Branch? && BST(t) && BST(c)
    requires Keys(c) == Keys(Child(t, d)) + extra && OnSide(extra, t.key, d)
    ensures BST(WithChild(t, d, c))
  {
    TreeParts(t, d);
    WithChildParts(t, d, Child(t, d));
    WithChildParts(t, d, c);
  }

  // ---------------------------------------------------------------------
  // Whole operations

  /** The tree of a well-formed arena of length `n`: a search tree using each
      of the slots 0 .. n-1 exactly once. */
  ghost predicate WellFormed<V>(t: Tree<V>, n: nat)
  {
    BST(t) && Unique(t) && forall i: nat :: i in Indices(t) <==> i < n
  }

  /** Adding slot `n` to the slots 0 .. n-1 gives the slots 0 .. n. */
  lemma {:induction false} SlotsGrow(s0: set<nat>, s1: set<nat>, n: nat, grows: bool)
    requires forall i: nat :: i in s0 <==> i < n
    requires s1 == s0 + (if grows then {n} else {})
    ensures forall i: nat :: i in s1 <==> i < (if grows then n + 1 else n)
  {
  }

  /** `visit` keeps the tree well formed, grows the arena by one exactly when
      it inserts a new key, changes the map only by that insert, and leaves
      the target at the root, in the root's old slot. */
  lemma {:induction false} VisitFacts<V>(t: Tree<V>, c: OrCreate<V>, n: nat)
    requires WellFormed(t, n)
    ensures var (u, back) := Visit(t, c, n);
      && WellFormed(u, if Grows(t, c) then n + 1 else n)
      && Map(u) == (if Grows(t, c) then Map(t)[Key(c) := c.v] else Map(t))
      && (Grows(t, c) <==> c.Create? && Key(c) !in Map(t))
      && back == (if c.Create? && Key(c) in Map(t) then Some(c.v) else None)
      && (u.Branch? ==> u.key == (if c.Create? then Key(c) else LastKey(t, Key(c))))
  {
    MapKeys(t);
    FoundIffPresent(t, Key(c));
    var (u, back) := Visit(t, c, n);
    var m := if Grows(t, c) then n + 1 else n;
    if t.Branch? {
      var s := VisitInner(t, c, n);
      assert u == SplayFinish(s.tree, s.path) && back == s.value;
      VisitInnerKeys(t, c, n);
      VisitInnerSlots(t, c, n);
      VisitInnerOrder(t, c, n);
      SplayFinishFacts(s.tree, s.path);
      assert Indices(u) == Indices(t) + (if Grows(t, c) then {n} else {});
      SlotsGrow(Indices(t), Indices(u), n, Grows(t, c));
    }
  }

  /** `get` answers exactly as the map does, keeps the map and the slots, and
      leaves the last node of the search path at the root (so the key itself
      when it is present), in the root's old slot. */
  lemma {:induction false} GetFacts<V>(t: Tree<V>, k: int, n: nat)
    requires WellFormed(t, n)
    ensures var (u, r) := Get(t, k, n);
      && r == (if k in Map(t) then Some(Map(t)[k]) else None)
      && WellFormed(u, n) && Map(u) == Map(t)
      && (t.Leaf? ==> u == t)
      && (t.Branch? ==> u.Branch? && u.idx == t.idx && u.key == LastKey(t, k))
      && (t.Branch? && k in Map(t) ==> u.key == k)
  {
    VisitFacts(t, Lookup(k), n);
    MapKeys(t);
    FoundIffPresent(t, k);
  }

  /** `set` makes the map `Map(t)[k := v]`, puts `k` with `v` at the root (in
      the old root's slot, or slot 0 for the first node), and grows the arena
      by one exactly when `k` was absent. */
  lemma {:induction false} SetFacts<V>(t: Tree<V>, k: int, v: V, n: nat)
    requires WellFormed(t, n)
    ensures var u := Set(t, k, v, n);
      && WellFormed(u, if k in Map(t) then n else n + 1)
      && Map(u) == Map(t)[k := v]
      && u.key == k && u.value == v
      && (t.Branch? ==> u.idx == t.idx)
      && (t.Leaf? ==> u.idx == 0 && n == 0)
  {
    VisitFacts(t, Create(k, v), n);
    var (u0, back) := Visit(t, Create(k, v), n);
    assert Map(u0)[u0.key] == u0.value;
    if back.Some? {
      var u := u0.(value := v);
      assert Keys(u) == Keys(u0) && Indices(u) == Indices(u0);
      assert Map(u) == Map(u0)[k := v];
    }
    if t.Leaf? {
      assert 0 in Indices(t) <==> 0 < n;
    }
  }
}
