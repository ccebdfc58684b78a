/** The persistent hash map (`Gt` and its five node kinds): a 32-way trie over the five-bit slices
    of a 32-bit hash. Nodes are values: an update returns a new node and shares the rest. */
module HashTrie {
  import opened BitCount
  import opened Options

  /** The hash of a key, read as an unsigned 32-bit number. Any function may serve as the hash. */
  type Hash = h: nat | h < 0x1_0000_0000

  /** `ArrayMap` is `Zt`, `Bitmap` is `Vt`, `ArrayNode` is `$t`, `Collision` is `Xt`, `Leaf` is `Kt`. */
  datatype Node<K, V> =
    | ArrayMap(entries: seq<(K, V)>)
    | Bitmap(bitmap: bv32, nodes: seq<Node<K, V>>)
    | ArrayNode(count: nat, slots: seq<Option<Node<K, V>>>)
    | Collision(keyHash: Hash, entries: seq<(K, V)>)
    | Leaf(keyHash: Hash, key: K, value: V)

  // `Le`, `me` and `xe`
  const MAX_ARRAY_MAP := 8
  const MAX_BITMAP := 16
  const MIN_ARRAY_NODE := 8

  /** `(h >>> 5 * level) & 31` */
  function Slice(h: nat, level: nat): (i: nat)
    ensures i < 32
  {
    if level == 0 then h % 32 else Slice(h / 32, level - 1)
  }

  /** The slots that lead to a key with hash `h`, from the root down. */
  function Path(h: nat, level: nat): (p: seq<nat>)
    ensures |p| == level
  {
    if level == 0 then [] else Path(h, level - 1) + [Slice(h, level - 1)]
  }

  /** The position of a key in a list of entries, or the length of the list. */
  function IndexOf<K(==), V>(entries: seq<(K, V)>, key: K): (c: nat)
    ensures c <= |entries|
    ensures c < |entries| ==> entries[c].0 == key
    ensures forall j :: 0 <= j < c ==> entries[j].0 != key
  {
    if entries == [] then 0
    else if entries[0].0 == key then 0
    else 1 + IndexOf(entries[1..], key)
  }

  function Find<K(==), V>(entries: seq<(K, V)>, key: K): Option<V> {
    var c := IndexOf(entries, key);
    if c < |entries| then Some(entries[c].1) else None
  }

  /** The child of a bitmap or array node in a slot. */
  function Child<K, V>(n: Node<K, V>, slot: nat): (c: Option<Node<K, V>>)
    ensures c.Some? ==> c.value < n
  {
    match n
    case Bitmap(bitmap, nodes) =>
      if Has(bitmap, slot) && Position(bitmap, slot) < |nodes| then Some(nodes[Position(bitmap, slot)]) else None
    case ArrayNode(_, slots) =>
      if slot < |slots| then slots[slot] else None
    case _ => None
  }

  /** `get` of each node kind; `level` is the source's shift divided by five. */
  function Get<K(==), V>(n: Node<K, V>, level: nat, h: Hash, key: K): Option<V>
    decreases n
  {
    match n
    case ArrayMap(entries) => Find(entries, key)
    case Collision(_, entries) => Find(entries, key)
    case Leaf(_, k, v) => if key == k then Some(v) else None
    case _ =>
      match Child(n, Slice(h, level))
      case None => None
      case Some(c) => Get(c, level + 1, h, key)
  }

  // Shape of a trie.

  ghost predicate DistinctKeys<K, V>(entries: seq<(K, V)>) {
    forall i, j :: 0 <= i < j < |entries| ==> entries[i].0 != entries[j].0
  }

  /** `ue` */
  predicate IsLeafy<K, V>(n: Node<K, V>) { n.Leaf? || n.Collision? }

  predicate IsBranch<K, V>(n: Node<K, V>) { n.Bitmap? || n.ArrayNode? }

  function Occupied<T>(slots: seq<Option<T>>, n: nat): nat
    requires n <= |slots|
  {
    if n == 0 then 0 else Occupied(slots, n - 1) + (if slots[n - 1].Some? then 1 else 0)
  }

  /** A bitmap node has one child for each set bit, in bit order, and a single child is never a leaf;
      an array node counts its occupied slots. */
  ghost predicate WellShaped<K, V>(n: Node<K, V>)
    requires IsBranch(n)
  {
    match n
    case Bitmap(bitmap, nodes) =>
      && 1 <= |nodes| <= MAX_BITMAP
      && |nodes| == Count(bitmap, 32)
      && (|nodes| == 1 ==> !IsLeafy(nodes[0]))
    case ArrayNode(count, slots) =>
      && |slots| == 32
      && MIN_ARRAY_NODE <= count == Occupied(slots, 32)
  }

  /** A node below the root that holds only keys whose hashes begin with `path`. */
  ghost predicate WellFormed<K, V>(n: Node<K, V>, path: seq<nat>, hash: K -> Hash)
    decreases n
  {
    match n
    case ArrayMap(_) => false
    case Leaf(kh, key, _) =>
      && kh == hash(key)
      && |path| <= 7
      && Path(kh, |path|) == path
    case Collision(kh, entries) =>
      && |entries| >= 2
      && DistinctKeys(entries)
      && (forall j :: 0 <= j < |entries| ==> hash(entries[j].0) == kh)
      && |path| <= 7
      && Path(kh, |path|) == path
    case _ =>
      && |path| < 7
      && WellShaped(n)
      && (forall i :: 0 <= i < 32 && Child(n, i).Some? ==> WellFormed(Child(n, i).value, path + [i], hash))
  }

  /** The root may also be a short list of entries. */
  ghost predicate WellFormedRoot<K, V>(n: Node<K, V>, hash: K -> Hash) {
    if n.ArrayMap? then 1 <= |n.entries| <= MAX_ARRAY_MAP && DistinctKeys(n.entries)
    else WellFormed(n, [], hash)
  }

  // Updates. A value of `None` removes the key.

  /** The result of an update: the new node, `didAlter` and `didChangeSize`. */
  datatype Update<K, V> = Update(node: Option<Node<K, V>>, altered: bool, resized: bool)

  /** How `Zt` and `Xt` edit their entry lists: replace, append, or drop by moving the last entry. */
  function EditEntries<K(==), V>(entries: seq<(K, V)>, key: K, val: Option<V>): seq<(K, V)> {
    var c := IndexOf(entries, key);
    var f := |entries|;
    match val
    case Some(v) => if c < f then entries[c := (key, v)] else entries + [(key, v)]
    case None =>
      if c == f then entries
      else if c == f - 1 then entries[..f - 1]
      else entries[c := entries[f - 1]][..f - 1]
  }

  // A hash is determined by its seven slices, which is why two leaves can always be told apart.

  function Pow32(n: nat): nat { if n == 0 then 1 else 32 * Pow32(n - 1) }

  lemma {:induction false} SlicesDetermineHash(a: nat, b: nat, n: nat)
    requires a < Pow32(n) && b < Pow32(n)
    requires forall j :: 0 <= j < n ==> Slice(a, j) == Slice(b, j)
    ensures a == b
  {
    if n > 0 {
      assert Slice(a, 0) == Slice(b, 0);
      forall j | 0 <= j < n - 1
        ensures Slice(a / 32, j) == Slice(b / 32, j)
      {
        assert Slice(a, j + 1) == Slice(b, j + 1);
      }
      SlicesDetermineHash(a / 32, b / 32, n - 1);
    }
  }

  lemma {:induction false} PathSlice(h: nat, level: nat, j: nat)
    requires j < level
    ensures Path(h, level)[j] == Slice(h, j)
  {
    if j < level - 1 {
      PathSlice(h, level - 1, j);
    }
  }

  lemma PathsDetermineHash(a: Hash, b: Hash)
    requires Path(a, 7) == Path(b, 7)
    ensures a == b
  {
    forall j | 0 <= j < 7
      ensures Slice(a, j) == Slice(b, j)
    {
      PathSlice(a, 7, j);
      PathSlice(b, 7, j);
    }
    assert Pow32(3) == 0x8000 && Pow32(6) == 0x4000_0000;
    SlicesDetermineHash(a, b, 7);
  }

  /** `ae`: a leaf, or a collision node with another hash, and a new entry below one node. */
  function MergeIntoNode<K, V>(n: Node<K, V>, level: nat, h: Hash, key: K, v: V): Node<K, V>
    requires n.Leaf? || (n.Collision? && n.keyHash != h)
    requires level <= 7 && Path(n.keyHash, level) == Path(h, level)
    decreases 7 - level
  {
    if n.keyHash == h then Collision(h, [(n.key, n.value), (key, v)])
    else
      var s, u := Slice(n.keyHash, level), Slice(h, level);
      var bitmap := With(With(0, s), u);
      if s == u then
        assert level < 7 by {
          if level == 7 {
            PathsDetermineHash(n.keyHash, h);
          }
        }
        Bitmap(bitmap, [MergeIntoNode(n, level + 1, h, key, v)])
      else
        Bitmap(bitmap, if s < u then [n, Leaf(h, key, v)] else [Leaf(h, key, v), n])
  }

  /** `le`: a full bitmap node becomes an array node that also holds `c` in `slot`. */
  function Expand<K, V>(n: Node<K, V>, slot: nat, c: Node<K, V>): Node<K, V>
    requires n.Bitmap?
  {
    ArrayNode(|n.nodes| + 1, seq(32, (j: nat) => if j == slot then Some(c) else Child(n, j)))
  }

  /** `fe`: the occupied slots other than `skip`, in order, and their bits. */
  function PackNodes<K, V>(slots: seq<Option<Node<K, V>>>, skip: nat, n: nat): seq<Node<K, V>>
    requires n <= |slots|
  {
    if n == 0 then []
    else if slots[n - 1].Some? && n - 1 != skip then PackNodes(slots, skip, n - 1) + [slots[n - 1].value]
    else PackNodes(slots, skip, n - 1)
  }

  function PackBits<K, V>(slots: seq<Option<Node<K, V>>>, skip: nat, n: nat): bv32
    requires n <= |slots|
  {
    if n == 0 then 0
    else if slots[n - 1].Some? && n - 1 != skip then With(PackBits(slots, skip, n - 1), n - 1)
    else PackBits(slots, skip, n - 1)
  }

  function Pack<K, V>(slots: seq<Option<Node<K, V>>>, skip: nat): Node<K, V> {
    Bitmap(PackBits(slots, skip, |slots|), PackNodes(slots, skip, |slots|))
  }

  /** `update` of a leaf. */
  function UpdateLeaf<K(==), V(==)>(n: Node<K, V>, level: nat, h: Hash, key: K, val: Option<V>): Update<K, V>
    requires n.Leaf?
    requires level <= 7 && Path(n.keyHash, level) == Path(h, level)
  {
    if key == n.key then
      match val
      case Some(v) =>
        if v == n.value then Update(Some(n), false, false)
        else Update(Some(Leaf(n.keyHash, key, v)), true, false)
      case None => Update(None, true, true)
    else
      match val
      case Some(v) => Update(Some(MergeIntoNode(n, level, h, key, v)), true, true)
      case None => Update(Some(n), false, false)
  }

  /** `update` of a collision node. */
  function UpdateCollision<K(==), V(==)>(n: Node<K, V>, level: nat, h: Hash, key: K, val: Option<V>): Update<K, V>
    requires n.Collision? && |n.entries| >= 2
    requires level <= 7 && Path(n.keyHash, level) == Path(h, level)
  {
    if h != n.keyHash then
      match val
      case Some(v) => Update(Some(MergeIntoNode(n, level, h, key, v)), true, true)
      case None => Update(Some(n), false, false)
    else
      var c := IndexOf(n.entries, key);
      var found := c < |n.entries|;
      if (if found then Some(n.entries[c].1) == val else val.None?) then Update(Some(n), false, false)
      else
        var resized := val.None? || !found;
        if val.None? && |n.entries| == 2 then
          Update(Some(Leaf(n.keyHash, n.entries[1 - c].0, n.entries[1 - c].1)), true, resized)
        else
          Update(Some(Collision(n.keyHash, EditEntries(n.entries, key, val))), true, resized)
  }

  /** What a bitmap node becomes when the child in `slot`, at position `l`, is replaced by `d`. */
  function BitmapWithChild<K, V>(n: Node<K, V>, slot: nat, l: nat, d: Option<Node<K, V>>): Node<K, V>
    requires n.Bitmap?
    requires Child(n, slot).Some? ==> l < |n.nodes|
    requires Child(n, slot).None? ==> l <= |n.nodes| && d.Some?
  {
    var bitmap, nodes := n.bitmap, n.nodes;
    var f := Child(n, slot).Some?;
    if !f && |nodes| >= MAX_BITMAP then Expand(n, slot, d.value)
    else if f && d.None? && |nodes| == 2 && IsLeafy(nodes[1 - l]) then nodes[1 - l]
    else if f && d.Some? && |nodes| == 1 && IsLeafy(d.value) then d.value
    else if !f then Bitmap(With(bitmap, slot), nodes[..l] + [d.value] + nodes[l..])
    else
      match d
      case Some(c) => Bitmap(bitmap, nodes[l := c])
      case None => Bitmap(Without(bitmap, slot), nodes[..l] + nodes[l + 1..])
  }

  /** What an array node becomes when its child in `slot` is replaced by `d`. */
  function ArrayNodeWithChild<K, V>(n: Node<K, V>, slot: nat, d: Option<Node<K, V>>): Node<K, V>
    requires n.ArrayNode? && slot < |n.slots| && n.count > 0
  {
    if n.slots[slot].Some? then
      if d.None? then
        if n.count - 1 < MIN_ARRAY_NODE then Pack(n.slots, slot)
        else ArrayNode(n.count - 1, n.slots[slot := d])
      else ArrayNode(n.count, n.slots[slot := d])
    else ArrayNode(n.count + 1, n.slots[slot := d])
  }

  // The bitmap's positions, as counts.

  lemma ChildOfBitmap<K, V>(bitmap: bv32, nodes: seq<Node<K, V>>, slot: nat)
    requires slot < 32
    ensures Position(bitmap, slot) == Count(bitmap, slot)
    ensures Child(Bitmap(bitmap, nodes), slot)
         == if Bit(bitmap, slot) && Count(bitmap, slot) < |nodes| then Some(nodes[Count(bitmap, slot)]) else None
  {
    hide Bit, Count, Has, Position;
    HasIsBit(bitmap, slot);
    PositionIsCount(bitmap, slot);
  }

  lemma PositionInRange<K, V>(n: Node<K, V>, slot: nat)
    requires slot < 32
    requires n.Bitmap? ==> |n.nodes| == Count(n.bitmap, 32)
    ensures n.Bitmap? ==> Position(n.bitmap, slot) <= |n.nodes|
    ensures n.Bitmap? && Child(n, slot).Some? ==> Position(n.bitmap, slot) < |n.nodes|
  {
    hide Bit, Count, Has, Position;
    if n.Bitmap? {
      PositionIsCount(n.bitmap, slot);
      CountMonotone(n.bitmap, slot, 32);
    }
  }

  /** What a branch node becomes when the child in `slot` is replaced, added or removed. */
  function WithChild<K, V>(n: Node<K, V>, slot: nat, d: Option<Node<K, V>>): Node<K, V>
    requires IsBranch(n)
    requires n.ArrayNode? ==> slot < |n.slots| && n.count > 0
    requires n.Bitmap? ==> Position(n.bitmap, slot) <= |n.nodes|
    requires Child(n, slot).None? ==> d.Some?
  {
    if n.Bitmap? then BitmapWithChild(n, slot, Position(n.bitmap, slot), d) else ArrayNodeWithChild(n, slot, d)
  }

  /** `se` and `update` of the node kinds that occur below the root. */
  function UpdateNode<K(==), V(==)>(n: Node<K, V>, level: nat, key: K, val: Option<V>, hash: K -> Hash): Update<K, V>
    requires WellFormed(n, Path(hash(key), level), hash)
    decreases n
  {
    var h := hash(key);
    if n.Leaf? then UpdateLeaf(n, level, h, key, val)
    else if n.Collision? then UpdateCollision(n, level, h, key, val)
    else
      var slot := Slice(h, level);
      PositionInRange(n, slot);
      match Child(n, slot)
      case None =>
        if val.None? then Update(Some(n), false, false)
        else Update(Some(WithChild(n, slot, Some(Leaf(h, key, val.value)))), true, true)
      case Some(p) =>
        var u := UpdateNode(p, level + 1, key, val, hash);
        if u.node == Some(p) then Update(Some(n), u.altered, u.resized)
        else Update(Some(WithChild(n, slot, u.node)), u.altered, u.resized)
  }
}
