/** In-order iteration over the arena with an explicit stack of
    (slot, right-subtree-started) pairs; the tree itself is only read. */
module SplayIterator {
  import opened SplayTypes
  import opened TreeModel
  import opened Arena
  import opened SplayTree

  /** What a stack frame still has to yield: a frame whose right subtree
      was not started yields its own entry and then its right subtree; a
      started frame is waiting only for the frames above it. */
  ghost function Contribution<V>(started: bool, t: Tree<V>): seq<(int, V)>
  {
    if started || t.Leaf? then [] else [(t.key, t.value)] + InOrder(t.right)
  }

  /** Everything the stack still has to yield, top frame first. */
  ghost function Rest<V>(path: seq<(nat, bool)>, frames: seq<Tree<V>>): seq<(int, V)>
    requires |path| == |frames|
    decreases |path|
  {
    if |path| == 0 then []
    else Contribution(path[|path| - 1].1, frames[|frames| - 1]) + Rest(path[..|path| - 1], frames[..|frames| - 1])
  }

  /** Each frame's slot spells out that frame's subtree in `nodes`. */
  ghost predicate StackFramed<V>(nodes: seq<Node<V>>, path: seq<(nat, bool)>, frames: seq<Tree<V>>)
    decreases |path|
  {
    && |frames| == |path|
    && (|path| > 0 ==>
          && Represents(nodes, Some(path[|path| - 1].0), frames[|frames| - 1])
          && StackFramed(nodes, path[..|path| - 1], frames[..|frames| - 1]))
  }

  lemma TakeFirst<T>(done: seq<T>, rest: seq<T>)
    requires |rest| > 0
    ensures done + [rest[0]] + rest[1..] == done + rest
  {
  }

  /** Marking the top frame as started keeps the frames in place, and what
      is still to come is then what the frames below it owe. */
  lemma {:induction false} FramedMark<V>(nodes: seq<Node<V>>, path: seq<(nat, bool)>, frames: seq<Tree<V>>)
    requires StackFramed(nodes, path, frames) && |path| > 0
    ensures StackFramed(nodes, path[|path| - 1 := (path[|path| - 1].0, true)], frames)
    ensures Rest(path[|path| - 1 := (path[|path| - 1].0, true)], frames) == Rest(path[..|path| - 1], frames[..|frames| - 1])
  {
    var n := |path| - 1;
    var p := path[n := (path[n].0, true)];
    assert p[..n] == path[..n];
  }

  lemma AppendRegroup<T>(a: seq<T>, e: T, b: seq<T>, c: seq<T>)
    ensures a + ([e] + b + c) == (a + [e] + b) + c
  {
  }

  lemma DropFirst<T>(e: T, b: seq<T>, c: seq<T>)
    ensures ([e] + b + c)[0] == e && ([e] + b + c)[1..] == b + c
  {
  }

  /** Popping a started frame keeps the frames below in place and loses
      nothing still to come. */
  lemma {:induction false} PopStarted<V>(nodes: seq<Node<V>>, path: seq<(nat, bool)>, frames: seq<Tree<V>>)
    requires StackFramed(nodes, path, frames) && |path| > 0 && path[|path| - 1].1
    ensures StackFramed(nodes, path[..|path| - 1], frames[..|frames| - 1])
    ensures Rest(path, frames) == Rest(path[..|path| - 1], frames[..|frames| - 1])
  {
  }

  /** Pushing the root of `t` (right subtree not started) on the stack:
      the frames stay in place, its left child is entered next, and the
      left subtree followed by the new stack owes what `t` followed by the
      old stack owed. */
  lemma {:induction false} PushLeft<V>(nodes: seq<Node<V>>, path: seq<(nat, bool)>, frames: seq<Tree<V>>, i: nat, t: Tree<V>)
    requires StackFramed(nodes, path, frames) && Represents(nodes, Some(i), t)
    ensures t.Branch? && i < |nodes|
    ensures StackFramed(nodes, path + [(i, false)], frames + [t])
    ensures Represents(nodes, ToOption(nodes[i].left), t.left)
    ensures InOrder(t.left) + Rest(path + [(i, false)], frames + [t]) == InOrder(t) + Rest(path, frames)
  {
    assert (path + [(i, false)])[..|path|] == path;
    assert (frames + [t])[..|frames|] == frames;
    RepresentsChild(nodes, i, t, Left);
    AppendRegroup(InOrder(t.left), (t.key, t.value), InOrder(t.right), Rest(path, frames));
  }

  class SplayIter<V> {
    const tree: Splay<V>
    var path: seq<(nat, bool)>
    /** The subtree each stack frame's slot enters. */
    ghost var frames: seq<Tree<V>>

    /** Every frame's slot spells out its subtree in the arena. */
    ghost predicate Framed()
      reads this, tree
    {
      StackFramed(tree.nodes, path, frames)
    }

    /** The stack frames are in place and the top frame has not started its
        right subtree. */
    ghost predicate Valid()
      reads this, tree
    {
      Framed() && (|path| > 0 ==> !path[|path| - 1].1)
    }

    /** The entries still to be yielded. */
    ghost function Remaining(): seq<(int, V)>
      reads this
      requires |frames| == |path|
    {
      Rest(path, frames)
    }

    /** `SplayIter::new` (and `Splay::iter`): start at the leftmost node; the
        entries to come are the tree's in-order sequence. */
    constructor (tree: Splay<V>)
      requires tree.Valid()
      ensures Valid() && this.tree == tree
      ensures Remaining() == InOrder(tree.tree)
      ensures StrictlyAscending(Remaining())
      ensures forall e :: e in Remaining() <==> e.0 in tree.Abs() && tree.Abs()[e.0] == e.1
    {
      this.tree := tree;
      path := [];
      frames := [];
      new;
      match ToOption(tree.root) {
        case Some(root) => TowardsMin(root, tree.tree);
        case None =>
      }
      InOrderSorted(tree.tree);
      forall e: (int, V) ensures e in Remaining() <==> e.0 in tree.Abs() && tree.Abs()[e.0] == e.1 {
        InOrderIsMap(tree.tree, e.0, e.1);
      }
    }

    /** `towards_min`: push the left spine of the subtree at `idx`; the
        entries to come are then that subtree's in-order sequence followed
        by what was to come before, and the new top has no left child. */
    method TowardsMin(idx: nat, ghost t: Tree<V>)
      requires Framed() && Represents(tree.nodes, Some(idx), t)
      modifies this`path, this`frames
      ensures Framed()
      ensures Remaining() == InOrder(t) + old(Remaining())
      ensures |path| > |old(path)|
      ensures !path[|path| - 1].1 && ToOption(tree.nodes[path[|path| - 1].0].left).None?
    {
      var cur: Option<nat> := Some(idx);
      ghost var ct := t;
      while cur.Some?
        invariant Framed() && Represents(tree.nodes, cur, ct)
        invariant InOrder(ct) + Remaining() == InOrder(t) + old(Remaining())
        invariant |path| >= |old(path)|
        invariant |path| == |old(path)| ==> cur == Some(idx)
        invariant |path| > |old(path)| ==>
                    && !path[|path| - 1].1 && path[|path| - 1].0 < |tree.nodes|
                    && ToOption(tree.nodes[path[|path| - 1].0].left) == cur
        decreases ct
      {
        var i := cur.value;
        PushLeft(tree.nodes, path, frames, i, ct);
        path := path + [(i, false)];
        frames := frames + [ct];
        cur := ToOption(tree.nodes[i].left);
        ct := ct.left;
      }
    }

    /** `upwards`: pop every frame whose right subtree was already started;
        nothing still to come is lost. */
    method Upwards()
      requires Framed()
      modifies this`path, this`frames
      ensures Framed()
      ensures Remaining() == old(Remaining())
      ensures |path| == 0 || !path[|path| - 1].1
      ensures |path| <= |old(path)| && path == old(path)[..|path|]
    {
      while |path| > 0
        invariant Framed() && Remaining() == old(Remaining())
        invariant |path| <= |old(path)| && path == old(path)[..|path|]
        decreases |path|
      {
        if !path[|path| - 1].1 {
          break;
        }
        var shorter := path[..|path| - 1];
        ghost var fewer := frames[..|frames| - 1];
        PopStarted(tree.nodes, path, frames);
        assert shorter == old(path)[..|shorter|];
        path := shorter;
        frames := fewer;
      }
    }

    /** `next`: yield the first entry still to come, or nothing exactly when
        the stack is empty; the tree is not touched. */
    method Next() returns (r: Option<(int, V)>)
      requires Valid()
      modifies this`path, this`frames
      ensures Valid()
      ensures r.None? <==> |old(path)| == 0
      ensures r.None? <==> old(Remaining()) == []
      ensures r.None? ==> path == old(path)
      ensures r.Some? ==> r.value == old(Remaining())[0] && Remaining() == old(Remaining())[1..]
    {
      if |path| == 0 {
        return None;
      }
      var top := |path| - 1;
      var (nodeIdx, visitedRight) := path[top];
      var node := tree.nodes[nodeIdx];
      ghost var f := frames[top];
      ghost var below := Rest(path[..top], frames[..top]);
      ghost var after := InOrder(f.right) + below;
      RepresentsChild(tree.nodes, nodeIdx, f, Right);
      assert Remaining() == [(node.key, node.value)] + InOrder(f.right) + below;
      DropFirst((node.key, node.value), InOrder(f.right), below);
      assert old(Remaining())[0] == (node.key, node.value) && old(Remaining())[1..] == after;
      var marked := path[top := (nodeIdx, true)];
      FramedMark(tree.nodes, path, frames);
      assert Rest(marked, frames) == below && StackFramed(tree.nodes, marked, frames);
      path := marked;
      r := Some((node.key, node.value));
      var right := ToOption(node.right);
      if !visitedRight && right.Some? {
        TowardsMin(right.value, f.right);
        assert Remaining() == after;
      } else {
        Upwards();
        assert Remaining() == after;
      }
    }
  }

  /** Draining `iter()`, as the test suite does before comparing with a
      sorted listing of a reference map: the entries come out in the tree's
      in-order sequence, which is the map's entries by ascending key. */
  method Collect<V>(s: Splay<V>) returns (out: seq<(int, V)>)
    requires s.Valid()
    ensures out == InOrder(s.tree)
    ensures StrictlyAscending(out)
    ensures forall e :: e in out <==> e.0 in s.Abs() && s.Abs()[e.0] == e.1
  {
    var it := new SplayIter(s);
    out := [];
    while true
      invariant it.Valid() && it.tree == s
      invariant out + it.Remaining() == InOrder(s.tree)
      decreases |it.Remaining()|
    {
      ghost var rest := it.Remaining();
      var r := it.Next();
      if r.None? {
        break;
      }
      TakeFirst(out, rest);
      out := out + [r.value];
    }
    InOrderSorted(s.tree);
    forall e: (int, V) ensures e in out <==> e.0 in s.Abs() && s.Abs()[e.0] == e.1 {
      InOrderIsMap(s.tree, e.0, e.1);
    }
  }
}
