/** Small value types of the splay tree: arena indices with a "no child"
    sentinel, child directions, the pending-rotation path and the
    lookup-or-insert request. */
module SplayTypes {

  datatype Option<T> = None | Some(value: T)

  /** `usize::MAX` on a 64-bit target: the raw value reserved for "no child". */
  const IdxMax: nat := 0xFFFF_FFFF_FFFF_FFFF

  /** A child reference stored in a node: an arena index, or the sentinel. */
  datatype OptionIdx = OptionIdx(raw: nat)

  const IdxNone: OptionIdx := OptionIdx(IdxMax)

  /** Reads a stored child reference: the sentinel means "absent". */
  function ToOption(o: OptionIdx): (r: Option<nat>)
    ensures r.None? <==> o == IdxNone
    ensures r.Some? ==> r.value == o.raw && r.value != IdxMax
  {
    if o == IdxNone then None else Some(o.raw)
  }

  lemma {:induction false} ToOptionOfIndex(i: nat)
    requires i < IdxMax
    ensures ToOption(OptionIdx(i)) == Some(i)
  {
    assert OptionIdx(i) != IdxNone;
  }

  datatype Dir = Left | Right

  /** The opposite direction. */
  function Flip(d: Dir): (r: Dir)
    ensures r != d
  {
    match d
    case Right => Left
    case Left => Right
  }

  /** The rotations still owed on the way back up: none, one (the final zig),
      or two (a zig-zig or zig-zag, outer direction first). */
  datatype Path = Empty | One(d: Dir) | Two(d1: Dir, d2: Dir)

  /** Records one more step `d` taken from the current node toward its child;
      the newest direction goes first and only the two newest are kept. */
  function Extend(p: Path, d: Dir): (r: Path)
    ensures p.Empty? ==> r == One(d)
    ensures p.One? ==> r == Two(d, p.d)
    ensures p.Two? ==> r == Two(d, p.d1)
    ensures r.One? || r.Two?
  {
    match p
    case Empty => One(d)
    case One(d1) => Two(d, d1)
    case Two(d1, _) => Two(d, d1)
  }

  /** One visit either only looks a key up or inserts it with a value. */
  datatype OrCreate<V> = Lookup(k: int) | Create(k: int, v: V)

  /** The key the visit searches for. */
  function Key<V>(c: OrCreate<V>): (r: int)
    ensures c.Lookup? ==> r == c.k
    ensures c.Create? ==> r == c.k
  {
    match c
    case Lookup(k) => k
    case Create(k, _) => k
  }

  /** The value carried by an insert request; none for a lookup. */
  function Value<V>(c: OrCreate<V>): (r: Option<V>)
    ensures r.Some? <==> c.Create?
    ensures c.Create? ==> r.value == c.v
  {
    match c
    case Lookup(_) => None
    case Create(_, v) => Some(v)
  }

  /** One arena slot. */
  datatype Node<V> = Node(key: int, value: V, left: OptionIdx, right: OptionIdx)

  /** The child reference of `n` on side `d`. */
  function NodeChild<V>(n: Node<V>, d: Dir): OptionIdx
  {
    match d
    case Left => n.left
    case Right => n.right
  }

  /** `n` with its child reference on side `d` replaced by `to`. */
  function NodeWithChild<V>(n: Node<V>, d: Dir, to: OptionIdx): (r: Node<V>)
    ensures NodeChild(r, d) == to && NodeChild(r, Flip(d)) == NodeChild(n, Flip(d))
    ensures r.key == n.key && r.value == n.value
  {
    match d
    case Left => n.(left := to)
    case Right => n.(right := to)
  }
}
