/** Every update of the hash trie acts on the key's own value only and keeps the trie's shape. */
module HashTrieLaws {
  import opened BitCount
  import opened Options
  import opened HashTrie

  // Entry lists.

  lemma FindPresent<K, V>(entries: seq<(K, V)>, j: nat)
    requires DistinctKeys(entries) && j < |entries|
    ensures IndexOf(entries, entries[j].0) == j
    ensures Find(entries, entries[j].0) == Some(entries[j].1)
  {
    var c := IndexOf(entries, entries[j].0);
    assert c == j;
  }

  lemma EditKeepsDistinct<K, V>(entries: seq<(K, V)>, key: K, val: Option<V>)
    requires DistinctKeys(entries)
    ensures DistinctKeys(EditEntries(entries, key, val))
  {
  }

  /** Editing a list of distinct keys changes what is found under that key and nothing else. */
  lemma FindAfterEdit<K, V>(entries: seq<(K, V)>, key: K, val: Option<V>, k: K)
    requires DistinctKeys(entries)
    ensures Find(EditEntries(entries, key, val), k) == if k == key then val else Find(entries, k)
  {
    var r := EditEntries(entries, key, val);
    EditKeepsDistinct(entries, key, val);
    var c, c' := IndexOf(entries, k), IndexOf(r, k);
    if c < |entries| && k != key {
      var j := if c < |r| && r[c].0 == k then c else IndexOf(entries, key);
      assert r[j] == entries[c];
      FindPresent(r, j);
    } else if k == key && val.Some? {
      assert r[c] == (key, val.value);
      FindPresent(r, c);
    } else if c' < |r| {
      assert false;
    }
  }

  // Replacing one child of a branch.

  /** The children that an update asks for. */
  ghost function NewChild<K, V>(n: Node<K, V>, slot: nat, d: Option<Node<K, V>>, j: nat): Option<Node<K, V>> {
    if j == slot then d else Child(n, j)
  }

  /** `r` holds exactly the children asked for. */
  ghost predicate HasNewChildren<K, V>(r: Node<K, V>, n: Node<K, V>, slot: nat, d: Option<Node<K, V>>) {
    forall j :: 0 <= j < 32 ==> Child(r, j) == NewChild(n, slot, d, j)
  }

  lemma ReplaceInBitmap<K, V>(n: Node<K, V>, slot: nat, c: Node<K, V>)
    requires n.Bitmap? && |n.nodes| == Count(n.bitmap, 32)
    requires slot < 32 && Child(n, slot).Some?
    ensures Position(n.bitmap, slot) < |n.nodes|
    ensures HasNewChildren(Bitmap(n.bitmap, n.nodes[Position(n.bitmap, slot) := c]), n, slot, Some(c))
  {
    hide Bit, Count, Has, Position;
    PositionInRange(n, slot);
    var nodes := n.nodes[Position(n.bitmap, slot) := c];
    forall j | 0 <= j < 32
      ensures Child(Bitmap(n.bitmap, nodes), j) == NewChild(n, slot, Some(c), j)
    {
      ChildOfBitmap(n.bitmap, nodes, j);
      ChildOfBitmap(n.bitmap, n.nodes, j);
      ChildOfBitmap(n.bitmap, n.nodes, slot);
      if j < slot {
        CountMonotone(n.bitmap, j, slot);
      } else {
        CountMonotone(n.bitmap, slot, j);
      }
    }
  }

  lemma InsertInBitmap<K, V>(n: Node<K, V>, slot: nat, c: Node<K, V>)
    requires n.Bitmap? && |n.nodes| == Count(n.bitmap, 32)
    requires slot < 32 && Child(n, slot).None?
    ensures !Bit(n.bitmap, slot) && Position(n.bitmap, slot) <= |n.nodes|
    ensures var l := Position(n.bitmap, slot);
            HasNewChildren(Bitmap(With(n.bitmap, slot), n.nodes[..l] + [c] + n.nodes[l..]), n, slot, Some(c))
    ensures Count(With(n.bitmap, slot), 32) == |n.nodes| + 1
  {
    hide Bit, Count, Has, Position, With;
    PositionInRange(n, slot);
    ChildOfBitmap(n.bitmap, n.nodes, slot);
    CountMonotone(n.bitmap, slot, 32);
    CountOfWith(n.bitmap, slot, 32);
    var l := Position(n.bitmap, slot);
    var nodes := n.nodes[..l] + [c] + n.nodes[l..];
    forall j | 0 <= j < 32
      ensures Child(Bitmap(With(n.bitmap, slot), nodes), j) == NewChild(n, slot, Some(c), j)
    {
      ChildOfBitmap(With(n.bitmap, slot), nodes, j);
      ChildOfBitmap(n.bitmap, n.nodes, j);
      BitOfWith(n.bitmap, slot, j);
      CountOfWith(n.bitmap, slot, j);
      if j < slot {
        CountMonotone(n.bitmap, j, slot);
      } else {
        CountMonotone(n.bitmap, slot, j);
        CountMonotone(n.bitmap, j, 32);
      }
    }
  }

  lemma RemoveFromBitmap<K, V>(n: Node<K, V>, slot: nat)
    requires n.Bitmap? && |n.nodes| == Count(n.bitmap, 32)
    requires slot < 32 && Child(n, slot).Some?
    ensures Position(n.bitmap, slot) < |n.nodes|
    ensures var l := Position(n.bitmap, slot);
            HasNewChildren(Bitmap(Without(n.bitmap, slot), n.nodes[..l] + n.nodes[l + 1..]), n, slot, None)
    ensures Count(Without(n.bitmap, slot), 32) == |n.nodes| - 1
  {
    hide Bit, Count, Has, Position, Without;
    PositionInRange(n, slot);
    ChildOfBitmap(n.bitmap, n.nodes, slot);
    CountOfWithout(n.bitmap, slot, 32);
    var l := Position(n.bitmap, slot);
    var nodes := n.nodes[..l] + n.nodes[l + 1..];
    forall j | 0 <= j < 32
      ensures Child(Bitmap(Without(n.bitmap, slot), nodes), j) == NewChild(n, slot, None, j)
    {
      ChildOfBitmap(Without(n.bitmap, slot), nodes, j);
      ChildOfBitmap(n.bitmap, n.nodes, j);
      BitOfWithout(n.bitmap, slot, j);
      CountOfWithout(n.bitmap, slot, j);
      if j < slot {
        CountMonotone(n.bitmap, j, slot);
      } else {
        CountMonotone(n.bitmap, slot, j);
        CountMonotone(n.bitmap, j, 32);
      }
    }
  }

  lemma {:induction false} OccupiedIsCount<T>(slots: seq<Option<T>>, bitmap: bv32, n: nat)
    requires n <= |slots|
    requires forall j :: 0 <= j < n ==> slots[j].Some? == Bit(bitmap, j)
    ensures Occupied(slots, n) == Count(bitmap, n)
  {
    hide Bit;
    if n > 0 {
      OccupiedIsCount(slots, bitmap, n - 1);
    }
  }

  lemma ExpandBitmap<K, V>(n: Node<K, V>, slot: nat, c: Node<K, V>)
    requires n.Bitmap? && |n.nodes| == Count(n.bitmap, 32)
    requires slot < 32 && Child(n, slot).None?
    ensures HasNewChildren(Expand(n, slot, c), n, slot, Some(c))
    ensures Occupied(Expand(n, slot, c).slots, 32) == |n.nodes| + 1
  {
    hide Bit, Count, Has, Position, With;
    var slots := Expand(n, slot, c).slots;
    InsertInBitmap(n, slot, c);
    forall j | 0 <= j < 32
      ensures slots[j].Some? == Bit(With(n.bitmap, slot), j)
    {
      ChildOfBitmap(n.bitmap, n.nodes, j);
      BitOfWith(n.bitmap, slot, j);
      CountMonotone(n.bitmap, j, 32);
    }
    OccupiedIsCount(slots, With(n.bitmap, slot), 32);
  }

  lemma {:induction false} OccupiedAfterUpdate<T>(slots: seq<Option<T>>, slot: nat, d: Option<T>, n: nat)
    requires n <= |slots| && slot < |slots|
    ensures Occupied(slots[slot := d], n) == Occupied(slots, n)
              + (if slot < n then (if d.Some? then 1 else 0) - (if slots[slot].Some? then 1 else 0) else 0)
  {
    if n > 0 {
      OccupiedAfterUpdate(slots, slot, d, n - 1);
    }
  }

  lemma {:induction false} BitOfPack<K, V>(slots: seq<Option<Node<K, V>>>, skip: nat, n: nat, j: nat)
    requires n <= |slots| <= 32
    ensures Bit(PackBits(slots, skip, n), j) == (j < n && slots[j].Some? && j != skip)
  {
    hide Bit, With;
    if n == 0 {
      BitOfZero(j);
    } else {
      BitOfPack(slots, skip, n - 1, j);
      BitOfWith(PackBits(slots, skip, n - 1), n - 1, j);
    }
  }

  /** The packed list, up to slot `n`, is as long as the packed bitmap has bits below `n`. */
  lemma {:induction false} PackCounts<K, V>(slots: seq<Option<Node<K, V>>>, skip: nat, n: nat)
    requires n <= |slots| <= 32
    ensures |PackNodes(slots, skip, n)| == Count(PackBits(slots, skip, |slots|), n)
    ensures |PackNodes(slots, skip, n)|
         == Occupied(slots, n) - (if skip < n && slots[skip].Some? then 1 else 0)
  {
    hide Bit, With;
    if n == 0 {
      assert Count(PackBits(slots, skip, |slots|), 0) == 0;
    } else {
      PackCounts(slots, skip, n - 1);
      BitOfPack(slots, skip, |slots|, n - 1);
    }
  }

  lemma {:induction false} PackPlaces<K, V>(slots: seq<Option<Node<K, V>>>, skip: nat, n: nat, j: nat)
    requires j < n <= |slots| <= 32
    requires slots[j].Some? && j != skip
    ensures |PackNodes(slots, skip, j)| < |PackNodes(slots, skip, n)|
    ensures PackNodes(slots, skip, n)[|PackNodes(slots, skip, j)|] == slots[j].value
  {
    if j < n - 1 {
      PackPlaces(slots, skip, n - 1, j);
    }
  }

  lemma PackArrayNode<K, V>(n: Node<K, V>, slot: nat)
    requires n.ArrayNode? && |n.slots| == 32 && slot < 32 && n.slots[slot].Some?
    ensures HasNewChildren(Pack(n.slots, slot), n, slot, None)
    ensures |Pack(n.slots, slot).nodes| == Count(Pack(n.slots, slot).bitmap, 32) == Occupied(n.slots, 32) - 1
  {
    hide Bit, Count, Has, Position, With, PackBits;
    var r := Pack(n.slots, slot);
    PackCounts(n.slots, slot, 32);
    forall j | 0 <= j < 32
      ensures Child(r, j) == NewChild(n, slot, None, j)
    {
      ChildOfBitmap(r.bitmap, r.nodes, j);
      BitOfPack(n.slots, slot, 32, j);
      PackCounts(n.slots, slot, j);
      if n.slots[j].Some? && j != slot {
        PackPlaces(n.slots, slot, 32, j);
      }
    }
  }

  lemma {:induction false} BitAtPosition(t: bv32, p: nat, n: nat) returns (j: nat)
    requires p < Count(t, n)
    ensures j < n && Bit(t, j) && Count(t, j) == p
  {
    hide Bit;
    if p < Count(t, n - 1) {
      j := BitAtPosition(t, p, n - 1);
    } else {
      j := n - 1;
    }
  }

  /** The one case in which a branch gives way to a leaf: then that leaf was its only remaining child. */
  ghost predicate GaveWay<K, V>(r: Node<K, V>, n: Node<K, V>, slot: nat, d: Option<Node<K, V>>, j0: nat) {
    && IsLeafy(r)
    && j0 < 32
    && NewChild(n, slot, d, j0) == Some(r)
    && forall j :: 0 <= j < 32 && j != j0 ==> NewChild(n, slot, d, j).None?
  }

  lemma BitmapGivesWay<K, V>(n: Node<K, V>, slot: nat, d: Option<Node<K, V>>) returns (j0: nat)
    requires n.Bitmap? && |n.nodes| == Count(n.bitmap, 32)
    requires slot < 32 && Child(n, slot).Some?
    requires d.None? ==> |n.nodes| == 2
    requires d.Some? ==> |n.nodes| == 1
    ensures Position(n.bitmap, slot) < |n.nodes|
    ensures var r := if d.None? then n.nodes[1 - Position(n.bitmap, slot)] else d.value;
            IsLeafy(r) ==> GaveWay(r, n, slot, d, j0)
  {
    hide Bit, Count, Has, Position;
    PositionInRange(n, slot);
    ChildOfBitmap(n.bitmap, n.nodes, slot);
    if d.None? {
      j0 := BitAtPosition(n.bitmap, 1 - Position(n.bitmap, slot), 32);
      ChildOfBitmap(n.bitmap, n.nodes, j0);
    } else {
      j0 := slot;
    }
    forall j | 0 <= j < 32 && j != j0 && j != slot
      ensures Child(n, j).None?
    {
      ChildOfBitmap(n.bitmap, n.nodes, j);
      if Bit(n.bitmap, j) {
        ThreeCounts(n.bitmap, slot, j0, j);
      }
    }
  }

  /** Different set bits have different counts below them. */
  lemma ThreeCounts(t: bv32, a: nat, b: nat, c: nat)
    requires a < 32 && b < 32 && c < 32 && c != a && c != b
    requires Bit(t, a) && Bit(t, b) && Bit(t, c)
    ensures Count(t, c) != Count(t, a) && Count(t, c) != Count(t, b) && Count(t, c) < Count(t, 32)
  {
    hide Bit, Count;
    if a < c { CountMonotone(t, a, c); } else { CountMonotone(t, c, a); }
    if b < c { CountMonotone(t, b, c); } else { CountMonotone(t, c, b); }
    CountMonotone(t, c, 32);
  }

  /** Whatever kind the new node is, it is well shaped with exactly the children asked for, or it is
      the one leaf that is left. */
  lemma WithChildHasNewChildren<K, V>(n: Node<K, V>, slot: nat, d: Option<Node<K, V>>) returns (j0: nat)
    requires IsBranch(n) && WellShaped(n) && slot < 32
    requires Child(n, slot).None? ==> d.Some?
    requires Child(n, slot).Some? && d.None? ==> IsLeafy(Child(n, slot).value)
    requires n.Bitmap? ==> Position(n.bitmap, slot) <= |n.nodes|
    ensures var r := WithChild(n, slot, d);
            GaveWay(r, n, slot, d, j0) || (IsBranch(r) && WellShaped(r) && HasNewChildren(r, n, slot, d))
  {
    hide Bit, Count, Has, Position, With, Without, PackBits;
    j0 := 0;
    if n.Bitmap? {
      PositionInRange(n, slot);
      if Child(n, slot).None? {
        if |n.nodes| >= MAX_BITMAP {
          ExpandBitmap(n, slot, d.value);
        } else {
          InsertInBitmap(n, slot, d.value);
        }
      } else {
        ChildOfBitmap(n.bitmap, n.nodes, slot);
        match d
        case Some(c) =>
          ReplaceInBitmap(n, slot, c);
          if |n.nodes| == 1 {
            j0 := BitmapGivesWay(n, slot, d);
          }
        case None =>
          RemoveFromBitmap(n, slot);
          if |n.nodes| == 2 {
            j0 := BitmapGivesWay(n, slot, d);
          }
      }
    } else {
      OccupiedAfterUpdate(n.slots, slot, d, 32);
      if n.slots[slot].Some? && d.None? {
        PackArrayNode(n, slot);
      }
    }
  }

  // Merging a leaf with a new entry.

  lemma MergedChildren<K, V>(s: nat, u: nat, nodes: seq<Node<K, V>>, j: nat)
    requires s < 32 && u < 32 && j < 32
    requires |nodes| == if s == u then 1 else 2
    ensures Count(With(With(0, s), u), 32) == |nodes|
    ensures Child(Bitmap(With(With(0, s), u), nodes), j)
         == if j == s && j == u then Some(nodes[0])
            else if j == s then Some(nodes[if s < u then 0 else 1])
            else if j == u then Some(nodes[if s < u then 1 else 0])
            else None
  {
    hide Bit, Has, Position, With;
    var one := With(0, s);
    forall m: nat
      ensures !Bit(0, m)
    {
      BitOfZero(m);
    }
    CountAboveIsNone(0, 0, s);
    CountAboveIsNone(0, 0, u);
    CountAboveIsNone(0, 0, 32);
    assert Count(0, 0) == 0;
    forall m: nat
      ensures Bit(one, m) == (m == s)
    {
      BitOfWith(0, s, m);
    }
    CountOfWith(0, s, s);
    CountOfWith(0, s, u);
    CountOfWith(0, s, 32);
    BitOfWith(one, u, j);
    if s == u {
      forall m | 0 <= m < 32
        ensures Bit(With(one, u), m) == Bit(one, m)
      {
        BitOfWith(one, u, m);
      }
      CountSame(With(one, u), one, 32);
      CountSame(With(one, u), one, j);
      CountSame(With(one, u), one, s);
    } else {
      CountOfWith(one, u, s);
      CountOfWith(one, u, u);
      CountOfWith(one, u, 32);
    }
    ChildOfBitmap(With(one, u), nodes, j);
  }

  ghost function Lookup<K, V>(n: Option<Node<K, V>>, level: nat, h: Hash, key: K): Option<V> {
    match n
    case None => None
    case Some(m) => Get(m, level, h, key)
  }

  /** A leafy node finds the same at every level, and finds nothing off its own path. */
  lemma GetFromLeafy<K, V>(n: Node<K, V>, path: seq<nat>, hash: K -> Hash, level: nat, k: K)
    requires IsLeafy(n) && WellFormed(n, path, hash)
    ensures Get(n, level, hash(k), k) == Get(n, |path|, hash(k), k)
    ensures Path(hash(k), |path|) != path ==> Get(n, level, hash(k), k) == None
  {
  }

  lemma {:induction false} LeafyAtPrefix<K, V>(n: Node<K, V>, path: seq<nat>, i: nat, hash: K -> Hash)
    requires IsLeafy(n) && WellFormed(n, path + [i], hash)
    ensures WellFormed(n, path, hash)
  {
    var kh := n.keyHash;
    assert Path(kh, |path| + 1) == Path(kh, |path|) + [Slice(kh, |path|)];
    assert (path + [i])[..|path|] == path;
    assert Path(kh, |path| + 1)[..|path|] == Path(kh, |path|);
  }

  lemma MergedIsWellFormed<K, V>(s: nat, u: nat, nodes: seq<Node<K, V>>, path: seq<nat>, hash: K -> Hash)
    requires s < 32 && u < 32 && |path| < 7
    requires if s == u then |nodes| == 1 && !IsLeafy(nodes[0]) else |nodes| == 2
    requires WellFormed(nodes[if s <= u then 0 else 1], path + [s], hash)
    requires WellFormed(nodes[if s < u then 1 else 0], path + [u], hash)
    ensures WellFormed(Bitmap(With(With(0, s), u), nodes), path, hash)
  {
    hide Bit, Has, Position, With, Count, DistinctKeys;
    var r := Bitmap(With(With(0, s), u), nodes);
    MergedChildren(s, u, nodes, 0);
    forall i | 0 <= i < 32 && Child(r, i).Some?
      ensures WellFormed(Child(r, i).value, path + [i], hash)
    {
      MergedChildren(s, u, nodes, i);
    }
  }

  lemma {:induction false} MergeIsWellFormed<K, V>(n: Node<K, V>, level: nat, key: K, v: V, hash: K -> Hash)
    requires IsLeafy(n) && WellFormed(n, Path(hash(key), level), hash)
    requires if n.Leaf? then n.key != key else n.keyHash != hash(key)
    ensures WellFormed(MergeIntoNode(n, level, hash(key), key, v), Path(hash(key), level), hash)
    ensures n.keyHash != hash(key) ==> MergeIntoNode(n, level, hash(key), key, v).Bitmap?
    decreases 7 - level
  {
    hide Bit, Has, Position, With, Count;
    var h, path := hash(key), Path(hash(key), level);
    if n.keyHash != h {
      var s, u := Slice(n.keyHash, level), Slice(h, level);
      if level == 7 {
        PathsDetermineHash(n.keyHash, h);
      }
      if s == u {
        MergeIsWellFormed(n, level + 1, key, v, hash);
      }
      assert Path(n.keyHash, level + 1) == path + [s];
      assert Path(h, level + 1) == path + [u];
      MergedIsWellFormed(s, u, MergeIntoNode(n, level, h, key, v).nodes, path, hash);
    }
  }

  /** A leafy node is found from one level up exactly by the keys that take its slot. */
  lemma GetFromLeafyChild<K, V>(n: Node<K, V>, path: seq<nat>, i: nat, hash: K -> Hash, k: K)
    requires IsLeafy(n) && WellFormed(n, path + [i], hash)
    requires Path(hash(k), |path|) == path
    ensures Get(n, |path|, hash(k), k) == Get(n, |path| + 1, hash(k), k)
    ensures Slice(hash(k), |path|) != i ==> Get(n, |path|, hash(k), k) == None
  {
    var p := path + [i];
    assert Path(hash(k), |path| + 1)[|path|] == Slice(hash(k), |path|);
    assert p[|path|] == i;
    GetFromLeafy(n, p, hash, |path|, k);
  }

  /** Merging adds the new entry and keeps what the node held. */
  lemma {:induction false} GetAfterMerge<K, V>(n: Node<K, V>, level: nat, key: K, v: V, hash: K -> Hash, k: K)
    requires IsLeafy(n) && WellFormed(n, Path(hash(key), level), hash)
    requires if n.Leaf? then n.key != key else n.keyHash != hash(key)
    requires Path(hash(k), level) == Path(hash(key), level)
    ensures Get(MergeIntoNode(n, level, hash(key), key, v), level, hash(k), k)
         == if k == key then Some(v) else Get(n, level, hash(k), k)
    decreases 7 - level
  {
    hide Bit, Has, Position, With, Count;
    var h, path := hash(key), Path(hash(key), level);
    if n.keyHash != h {
      var s, u := Slice(n.keyHash, level), Slice(h, level);
      if level == 7 {
        PathsDetermineHash(n.keyHash, h);
      }
      assert Path(n.keyHash, level + 1) == path + [s];
      assert Path(h, level + 1) == path + [u];
      assert WellFormed(n, path + [s], hash);
      GetFromLeafyChild(n, path, s, hash, k);
      var r := MergeIntoNode(n, level, h, key, v);
      MergedChildren(s, u, r.nodes, Slice(hash(k), level));
      if s == u {
        if Slice(hash(k), level) == s {
          GetAfterMerge(n, level + 1, key, v, hash, k);
        }
      } else {
        assert WellFormed(Leaf(h, key, v), path + [u], hash);
        GetFromLeafyChild(Leaf(h, key, v), path, u, hash, k);
      }
    } else {
      var entries := [(n.key, n.value), (key, v)];
      FindPresent(entries, 0);
      FindPresent(entries, 1);
    }
  }

  // The update laws.

  lemma LeafyUpdateKeepsShape<K, V>(n: Node<K, V>, level: nat, key: K, val: Option<V>, hash: K -> Hash)
    requires IsLeafy(n) && WellFormed(n, Path(hash(key), level), hash)
    ensures var u := UpdateNode(n, level, key, val, hash);
            && (u.node.Some? ==> WellFormed(u.node.value, Path(hash(key), level), hash))
            && (u.node.None? ==> n.Leaf?)
  {
    if val.Some? && (if n.Leaf? then n.key != key else n.keyHash != hash(key)) {
      MergeIsWellFormed(n, level, key, val.value, hash);
    } else if n.Collision? {
      EditKeepsDistinct(n.entries, key, val);
    }
  }

  /** What an update may put in place of a child. */
  ghost predicate MayReplace<K, V>(n: Node<K, V>, slot: nat, d: Option<Node<K, V>>, path: seq<nat>, hash: K -> Hash) {
    && IsBranch(n)
    && slot < 32
    && WellFormed(n, path, hash)
    && (d.Some? ==> WellFormed(d.value, path + [slot], hash))
    && (Child(n, slot).None? ==> d.Some?)
    && (Child(n, slot).Some? && d.None? ==> IsLeafy(Child(n, slot).value))
  }

  lemma BranchUpdateKeepsShape<K, V>(n: Node<K, V>, slot: nat, d: Option<Node<K, V>>, path: seq<nat>, hash: K -> Hash)
    requires MayReplace(n, slot, d, path, hash)
    ensures n.Bitmap? ==> Position(n.bitmap, slot) <= |n.nodes|
    ensures WellFormed(WithChild(n, slot, d), path, hash)
  {
    hide Bit, Has, Position, With, Without, Count, BitmapWithChild, ArrayNodeWithChild;
    PositionInRange(n, slot);
    var j0 := WithChildHasNewChildren(n, slot, d);
    var r := WithChild(n, slot, d);
    if GaveWay(r, n, slot, d, j0) {
      LeafyAtPrefix(r, path, j0, hash);
    } else {
      forall i | 0 <= i < 32 && Child(r, i).Some?
        ensures WellFormed(Child(r, i).value, path + [i], hash)
      {
        assert Child(r, i) == NewChild(n, slot, d, i);
      }
    }
  }

  lemma GetAfterBranchUpdate<K, V>(
    n: Node<K, V>, slot: nat, d: Option<Node<K, V>>, path: seq<nat>, hash: K -> Hash, k: K
  )
    requires MayReplace(n, slot, d, path, hash)
    requires Path(hash(k), |path|) == path
    ensures n.Bitmap? ==> Position(n.bitmap, slot) <= |n.nodes|
    ensures Get(WithChild(n, slot, d), |path|, hash(k), k)
         == Lookup(NewChild(n, slot, d, Slice(hash(k), |path|)), |path| + 1, hash(k), k)
  {
    hide Bit, Has, Position, With, Without, Count, BitmapWithChild, ArrayNodeWithChild;
    PositionInRange(n, slot);
    var j0 := WithChildHasNewChildren(n, slot, d);
    var r := WithChild(n, slot, d);
    if GaveWay(r, n, slot, d, j0) {
      assert WellFormed(r, path + [j0], hash);
      GetFromLeafyChild(r, path, j0, hash, k);
    }
  }

  lemma ChildIsWellFormed<K, V>(n: Node<K, V>, level: nat, h: Hash, hash: K -> Hash)
    requires IsBranch(n) && WellFormed(n, Path(h, level), hash)
    ensures Child(n, Slice(h, level)).Some? ==>
              WellFormed(Child(n, Slice(h, level)).value, Path(h, level + 1), hash)
  {
    hide Child;
  }

  /** An update below the root keeps the shape; only a leaf can vanish. */
  lemma {:induction false} UpdateKeepsShape<K, V>(n: Node<K, V>, level: nat, key: K, val: Option<V>, hash: K -> Hash)
    requires WellFormed(n, Path(hash(key), level), hash)
    ensures var u := UpdateNode(n, level, key, val, hash);
            && (u.node.Some? ==> WellFormed(u.node.value, Path(hash(key), level), hash))
            && (u.node.None? ==> n.Leaf?)
    decreases n, 1
  {
    if IsLeafy(n) {
      LeafyUpdateKeepsShape(n, level, key, val, hash);
    } else {
      BranchKeepsShape(n, level, key, val, hash);
    }
  }

  lemma {:induction false} BranchKeepsShape<K, V>(n: Node<K, V>, level: nat, key: K, val: Option<V>, hash: K -> Hash)
    requires IsBranch(n) && WellFormed(n, Path(hash(key), level), hash)
    ensures var u := UpdateNode(n, level, key, val, hash);
            u.node.Some? && WellFormed(u.node.value, Path(hash(key), level), hash)
    decreases n, 0
  {
    hide Child, WithChild, UpdateLeaf, UpdateCollision, WellFormed;
    var path, slot := Path(hash(key), level), Slice(hash(key), level);
    ChildIsWellFormed(n, level, hash(key), hash);
    match Child(n, slot)
    case None =>
      if val.Some? {
        NewLeafIsWellFormed(n, level, key, val.value, hash);
        BranchUpdateKeepsShape(n, slot, Some(Leaf(hash(key), key, val.value)), path, hash);
      }
    case Some(p) =>
      UpdateKeepsShape(p, level + 1, key, val, hash);
      var d := UpdateNode(p, level + 1, key, val, hash).node;
      if d != Some(p) {
        BranchUpdateKeepsShape(n, slot, d, path, hash);
      }
  }

  lemma NewLeafIsWellFormed<K, V>(n: Node<K, V>, level: nat, key: K, v: V, hash: K -> Hash)
    requires IsBranch(n) && WellFormed(n, Path(hash(key), level), hash)
    ensures WellFormed(Leaf(hash(key), key, v), Path(hash(key), level + 1), hash)
  {
  }

  lemma LeafyUpdateLaw<K, V>(n: Node<K, V>, level: nat, key: K, val: Option<V>, hash: K -> Hash, k: K)
    requires IsLeafy(n) && WellFormed(n, Path(hash(key), level), hash)
    requires Path(hash(k), level) == Path(hash(key), level)
    ensures Lookup(UpdateNode(n, level, key, val, hash).node, level, hash(k), k)
         == if k == key then val else Get(n, level, hash(k), k)
  {
    if val.Some? && (if n.Leaf? then n.key != key else n.keyHash != hash(key)) {
      GetAfterMerge(n, level, key, val.value, hash, k);
    } else if n.Collision? {
      CollisionUpdateLaw(n, level, key, val, hash, k);
    }
  }

  lemma CollisionUpdateLaw<K, V>(n: Node<K, V>, level: nat, key: K, val: Option<V>, hash: K -> Hash, k: K)
    requires n.Collision? && WellFormed(n, Path(hash(key), level), hash)
    requires n.keyHash == hash(key) || val.None?
    ensures Lookup(UpdateCollision(n, level, hash(key), key, val).node, level, hash(k), k)
         == if k == key then val else Find(n.entries, k)
  {
    var c := IndexOf(n.entries, key);
    FindAfterEdit(n.entries, key, val, k);
    FindPresent(n.entries, 0);
    FindPresent(n.entries, 1);
  }

  /** After an update the key has its new value and every other key keeps its own. */
  lemma {:induction false} UpdateLaw<K, V>(n: Node<K, V>, level: nat, key: K, val: Option<V>, hash: K -> Hash, k: K)
    requires WellFormed(n, Path(hash(key), level), hash)
    requires Path(hash(k), level) == Path(hash(key), level)
    ensures Lookup(UpdateNode(n, level, key, val, hash).node, level, hash(k), k)
         == if k == key then val else Get(n, level, hash(k), k)
    decreases n, 1
  {
    if IsLeafy(n) {
      LeafyUpdateLaw(n, level, key, val, hash, k);
    } else {
      BranchUpdateLaw(n, level, key, val, hash, k);
    }
  }

  lemma {:induction false} BranchUpdateLaw<K, V>(
    n: Node<K, V>, level: nat, key: K, val: Option<V>, hash: K -> Hash, k: K
  )
    requires IsBranch(n) && WellFormed(n, Path(hash(key), level), hash)
    requires Path(hash(k), level) == Path(hash(key), level)
    ensures Lookup(UpdateNode(n, level, key, val, hash).node, level, hash(k), k)
         == if k == key then val else Get(n, level, hash(k), k)
    decreases n, 0
  {
    hide Child, WithChild, UpdateLeaf, UpdateCollision, WellFormed;
    var path, slot := Path(hash(key), level), Slice(hash(key), level);
    ChildIsWellFormed(n, level, hash(key), hash);
    match Child(n, slot)
    case None =>
      if val.Some? {
        NewLeafIsWellFormed(n, level, key, val.value, hash);
        GetAfterBranchUpdate(n, slot, Some(Leaf(hash(key), key, val.value)), path, hash, k);
      }
    case Some(p) =>
      UpdateKeepsShape(p, level + 1, key, val, hash);
      var d := UpdateNode(p, level + 1, key, val, hash).node;
      if Slice(hash(k), level) == slot {
        UpdateLaw(p, level + 1, key, val, hash, k);
      }
      if d != Some(p) {
        GetAfterBranchUpdate(n, slot, d, path, hash, k);
      }
  }

  /** The flags say whether the key's value changed and whether the key came or went. */
  lemma {:induction false} UpdateFlags<K, V>(n: Node<K, V>, level: nat, key: K, val: Option<V>, hash: K -> Hash)
    requires WellFormed(n, Path(hash(key), level), hash)
    ensures var u, was := UpdateNode(n, level, key, val, hash), Get(n, level, hash(key), key);
            && u.altered == (was != val)
            && u.resized == (was.Some? != val.Some?)
            && (!u.altered ==> u.node == Some(n))
    decreases n
  {
    if IsLeafy(n) {
      LeafyUpdateFlags(n, level, key, val, hash);
    } else {
      hide Child, WithChild, UpdateLeaf, UpdateCollision, WellFormed;
      var slot := Slice(hash(key), level);
      ChildIsWellFormed(n, level, hash(key), hash);
      match Child(n, slot)
      case None =>
      case Some(p) =>
        UpdateFlags(p, level + 1, key, val, hash);
    }
  }

  lemma LeafyUpdateFlags<K, V>(n: Node<K, V>, level: nat, key: K, val: Option<V>, hash: K -> Hash)
    requires IsLeafy(n) && WellFormed(n, Path(hash(key), level), hash)
    ensures var u, was := UpdateNode(n, level, key, val, hash), Get(n, level, hash(key), key);
            && u.altered == (was != val)
            && u.resized == (was.Some? != val.Some?)
            && (!u.altered ==> u.node == Some(n))
  {
    hide MergeIntoNode, EditEntries;
    if n.Collision? && IndexOf(n.entries, key) < |n.entries| {
      assert hash(key) == n.keyHash;
    }
  }

  /** Where node kinds change: a bitmap node of sixteen children grows into an array node, and an array node that is
      left with fewer than eight shrinks into a bitmap node. */
  lemma KindAfterChild<K, V>(n: Node<K, V>, slot: nat, d: Option<Node<K, V>>)
    requires slot < 32 && IsBranch(n) && WellShaped(n) && (Child(n, slot).None? ==> d.Some?)
    ensures n.Bitmap? ==> Position(n.bitmap, slot) <= |n.nodes|
    ensures n.Bitmap? && Child(n, slot).None? ==>
              (if |n.nodes| < 16 then WithChild(n, slot, d).Bitmap? else WithChild(n, slot, d).ArrayNode?)
    ensures n.ArrayNode? && Child(n, slot).Some? && d.None? ==>
              (if n.count - 1 < 8 then WithChild(n, slot, d).Bitmap? else WithChild(n, slot, d).ArrayNode?)
  {
    PositionInRange(n, slot);
  }
}
