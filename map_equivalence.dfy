/** The splay tree behaves as an associative map: any sequence of sets, gets
    and sorted listings gives the same answers as on a plain map, both on the
    tree model and on the arena, and the fixed scenario of the unit test
    comes out as the test expects. */
module MapEquivalence {
  import opened SplayTypes
  import opened TreeModel
  import opened SplayModel
  import opened SplayFacts
  import opened SplayTree
  import opened SplayIterator

  /** The operations the randomised test draws. */
  datatype Op<V> = SetOp(k: int, v: V) | GetOp(k: int) | CompareSorted

  /** What each operation answers: nothing, a lookup result, or the keys in
      iteration order. */
  datatype Outcome<V> = Done | Got(value: Option<V>) | Listed(keys: seq<int>)

  /** The keys of a listing, in its order. */
  function KeysOf<V>(s: seq<(int, V)>): (r: seq<int>)
    ensures |r| == |s| && forall i :: 0 <= i < |s| ==> r[i] == s[i].0
  {
    if |s| == 0 then [] else [s[0].0] + KeysOf(s[1..])
  }

  // ---------------------------------------------------------------------
  // The reference: a map, and what a sorted listing of its keys is

  /** `ks` lists the keys `s` once each, ascending: what sorting the keys of
      the reference map gives. */
  predicate IsSortedListing(ks: seq<int>, s: set<int>)
  {
    && (forall i, j :: 0 <= i < j < |ks| ==> ks[i] < ks[j])
    && (forall x :: x in ks ==> x in s)
    && (forall x :: x in s ==> x in ks)
  }

  /** The keys of a search tree's in-order listing are a sorted listing of
      its map's keys. */
  lemma {:induction false} ListingIsSorted<V>(t: Tree<V>)
    requires BST(t)
    ensures IsSortedListing(KeysOf(InOrder(t)), Map(t).Keys)
  {
    var s := InOrder(t);
    var ks := KeysOf(s);
    InOrderSorted(t);
    InOrderKeys(t);
    MapKeys(t);
    forall x ensures x in ks <==> x in Map(t).Keys {
      if x in ks {
        var i :| 0 <= i < |ks| && ks[i] == x;
        assert s[i] in s;
      }
      if x in Keys(t) {
        var e :| e in s && e.0 == x;
        var i :| 0 <= i < |s| && s[i] == e;
        assert ks[i] == x;
      }
    }
  }

  lemma HeadIn<T>(s: seq<T>)
    ensures |s| > 0 ==> s[0] in s
  {
  }

  /** An ascending listing is fixed by the entries it lists. */
  lemma {:induction false} AscendingUnique<V>(a: seq<(int, V)>, b: seq<(int, V)>)
    requires StrictlyAscending(a) && StrictlyAscending(b)
    requires forall e :: e in a <==> e in b
    ensures a == b
    decreases |a|
  {
    if |a| == 0 {
      HeadIn(b);
    } else {
      assert a[0] in b;
      var j :| 0 <= j < |b| && b[j] == a[0];
      assert b[0] in a;
      var i :| 0 <= i < |a| && a[i] == b[0];
      assert a[0].0 <= a[i].0 && b[0].0 <= b[j].0;
      assert j == 0;
      forall e | e in a[1..] ensures e in b[1..] {
        var x :| 1 <= x < |a| && a[x] == e;
        assert e in a && e in b;
        var y :| 0 <= y < |b| && b[y] == e;
        assert y != 0;
        assert b[1..][y - 1] == e;
      }
      forall e | e in b[1..] ensures e in a[1..] {
        var y :| 1 <= y < |b| && b[y] == e;
        assert e in b && e in a;
        var x :| 0 <= x < |a| && a[x] == e;
        assert x != 0;
        assert a[1..][x - 1] == e;
      }
      AscendingUnique(a[1..], b[1..]);
      assert a == [a[0]] + a[1..] && b == [b[0]] + b[1..];
    }
  }

  /** The only ascending listing of the map {1: 1, 2: 1}. */
  lemma ListingOfTwo(listing: seq<(int, int)>, m: map<int, int>)
    requires m == map[1 := 1][2 := 2][2 := 1]
    requires StrictlyAscending(listing)
    requires forall e :: e in listing <==> e.0 in m && m[e.0] == e.1
    ensures listing == [(1, 1), (2, 1)]
  {
    var expected := [(1, 1), (2, 1)];
    assert StrictlyAscending(expected);
    forall e: (int, int) ensures e in listing <==> e in expected {
      assert e.0 in m <==> e.0 == 1 || e.0 == 2;
    }
    AscendingUnique(listing, expected);
  }

  // ---------------------------------------------------------------------
  // Running operations

  /** Runs `ops` on the tree model over an arena of length `n`; the arena
      grows by one on each set of a new key. */
  function RunTree<V>(t: Tree<V>, n: nat, ops: seq<Op<V>>): (r: seq<Outcome<V>>)
    ensures |r| == |ops|
    decreases |ops|
  {
    if |ops| == 0 then []
    else
      match ops[0]
      case SetOp(k, v) =>
        [Done] + RunTree(Set(t, k, v, n), if Found(t, k) then n else n + 1, ops[1..])
      case GetOp(k) =>
        var (u, r) := Get(t, k, n);
        [Got(r)] + RunTree(u, n, ops[1..])
      case CompareSorted =>
        [Listed(KeysOf(InOrder(t)))] + RunTree(t, n, ops[1..])
  }

  /** The reference map after one operation. */
  function Apply<V>(m: map<int, V>, op: Op<V>): map<int, V>
  {
    match op
    case SetOp(k, v) => m[k := v]
    case _ => m
  }

  /** The reference map before each operation of `ops`, starting from `m`. */
  function MapsBefore<V>(m: map<int, V>, ops: seq<Op<V>>): (r: seq<map<int, V>>)
    ensures |r| == |ops|
    decreases |ops|
  {
    if |ops| == 0 then [] else [m] + MapsBefore(Apply(m, ops[0]), ops[1..])
  }

  /** What the reference map `m` says `op` must answer. */
  ghost predicate Answers<V>(m: map<int, V>, op: Op<V>, out: Outcome<V>)
  {
    match op
    case SetOp(_, _) => out == Done
    case GetOp(k) => out == Got(if k in m then Some(m[k]) else None)
    case CompareSorted => out.Listed? && IsSortedListing(out.keys, m.Keys)
  }

  /** From any well-formed tree, every operation answers as the tree's map,
      updated by the sets before it, requires. */
  lemma {:induction false} RunMatchesMap<V>(t: Tree<V>, n: nat, ops: seq<Op<V>>)
    requires WellFormed(t, n)
    ensures forall i :: 0 <= i < |ops| ==> Answers(MapsBefore(Map(t), ops)[i], ops[i], RunTree(t, n, ops)[i])
    decreases |ops|
  {
    if |ops| > 0 {
      var t', n' := t, n;
      match ops[0] {
        case SetOp(k, v) =>
          SetFacts(t, k, v, n);
          MapKeys(t);
          FoundIffPresent(t, k);
          t', n' := Set(t, k, v, n), if Found(t, k) then n else n + 1;
        case GetOp(k) =>
          GetFacts(t, k, n);
          t' := Get(t, k, n).0;
        case CompareSorted =>
          ListingIsSorted(t);
      }
      assert Map(t') == Apply(Map(t), ops[0]) && WellFormed(t', n');
      assert RunTree(t, n, ops) == [RunTree(t, n, ops)[0]] + RunTree(t', n', ops[1..]);
      RunMatchesMap(t', n', ops[1..]);
    }
  }

  /** The randomised test's property: from the empty tree, every operation
      answers as the map built by the sets before it requires. */
  lemma {:induction false} RunFromEmpty<V>(ops: seq<Op<V>>)
    ensures forall i :: 0 <= i < |ops| ==> Answers(MapsBefore(map[], ops)[i], ops[i], RunTree(Leaf, 0, ops)[i])
  {
    assert WellFormed<V>(Leaf, 0);
    RunMatchesMap(Leaf, 0, ops);
  }

  // ---------------------------------------------------------------------
  // The tests, on the arena

  /** `test_quickcheck`: run the operations on a fresh arena tree and on a
      map side by side; every get agrees and every sorted listing agrees, so
      the run reports success. */
  method Quickcheck(ops: seq<Op<int>>) returns (ok: bool)
    requires |ops| < IdxMax
    ensures ok
  {
    var tree := new Splay<int>();
    var reference: map<int, int> := map[];
    ok := true;
    var i := 0;
    while i < |ops|
      invariant 0 <= i <= |ops|
      invariant fresh(tree) && tree.Valid() && tree.Abs() == reference && |tree.nodes| <= i
      invariant ok
    {
      match ops[i] {
        case SetOp(k, v) =>
          tree.Set(k, v);
          reference := reference[k := v];
        case GetOp(k) =>
          var r := tree.Get(k);
          ok := ok && r == (if k in reference then Some(reference[k]) else None);
        case CompareSorted =>
          var entries := Collect(tree);
          ListingIsSorted(tree.tree);
          assert IsSortedListing(KeysOf(entries), reference.Keys);
      }
      i := i + 1;
    }
  }

  /** The first phase of `basic_test`: insert 1 and 2 into a new tree. */
  method InsertTwo() returns (tree: Splay<int>)
    ensures fresh(tree) && tree.Valid()
    ensures tree.Abs() == map[1 := 1][2 := 2] && |tree.nodes| == 2
  {
    tree := new Splay<int>();
    tree.Set(1, 1);
    tree.Set(2, 2);
  }

  /** The lookups of `basic_test`: 1 and 2 are found, 3 is not; the map and
      the arena's length are unchanged. */
  method LookUpThree(tree: Splay<int>) returns (get1: Option<int>, get2: Option<int>, get3: Option<int>)
    requires tree.Valid() && tree.Abs() == map[1 := 1][2 := 2] && |tree.nodes| == 2
    modifies tree
    ensures tree.Valid() && tree.Abs() == map[1 := 1][2 := 2] && |tree.nodes| == 2
    ensures get1 == Some(1) && get2 == Some(2) && get3 == None
  {
    get1 := tree.Get(1);
    get2 := tree.Get(2);
    get3 := tree.Get(3);
  }

  /** The overwrite of `basic_test`: 2 now maps to 1, and the arena did not
      grow. */
  method Overwrite(tree: Splay<int>) returns (get2After: Option<int>)
    requires tree.Valid() && tree.Abs() == map[1 := 1][2 := 2] && |tree.nodes| == 2
    modifies tree
    ensures tree.Valid() && tree.Abs() == map[1 := 1][2 := 2][2 := 1]
    ensures get2After == Some(1)
  {
    tree.Set(2, 1);
    get2After := tree.Get(2);
  }

  /** `basic_test`: two inserts, three lookups, an overwrite, another lookup
      and a listing of the tree. */
  method BasicTest() returns (get1: Option<int>, get2: Option<int>, get3: Option<int>, get2After: Option<int>, listing: seq<(int, int)>)
    ensures get1 == Some(1) && get2 == Some(2) && get3 == None
    ensures get2After == Some(1)
    ensures listing == [(1, 1), (2, 1)]
  {
    var tree := InsertTwo();
    get1, get2, get3 := LookUpThree(tree);
    get2After := Overwrite(tree);
    listing := Collect(tree);
    ListingOfTwo(listing, tree.Abs());
  }
}
