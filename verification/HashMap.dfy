/** The persistent map itself: `get`, `set` and `remove` on top of the trie, against a mathematical map. */
module HashMap {
  import opened Options
  import opened HashTrie
  import opened HashTrieLaws

  /** The loop of `ce`: set entries one after the other, from the root. */
  function SetAll<K(==), V(==)>(n: Node<K, V>, entries: seq<(K, V)>, hash: K -> Hash): Node<K, V>
    requires WellFormed(n, [], hash)
    decreases |entries|
  {
    if entries == [] then n
    else
      var (k, v) := entries[0];
      UpdateKeepsShape(n, 0, k, Some(v), hash);
      UpdateLaw(n, 0, k, Some(v), hash, k);
      SetAll(UpdateNode(n, 0, k, Some(v), hash).node.value, entries[1..], hash)
  }

  /** `ce`: a trie that holds a new entry and those of an array map that is full. */
  function CreateNodes<K(==), V(==)>(entries: seq<(K, V)>, key: K, v: V, hash: K -> Hash): Node<K, V> {
    SetAll(Leaf(hash(key), key, v), entries, hash)
  }

  /** `update` of an array map. */
  function UpdateArrayMap<K(==), V(==)>(n: Node<K, V>, key: K, val: Option<V>, hash: K -> Hash): Update<K, V>
    requires n.ArrayMap?
  {
    var entries := n.entries;
    var c := IndexOf(entries, key);
    var l := c < |entries|;
    if (if l then Some(entries[c].1) == val else val.None?) then Update(Some(n), false, false)
    else
      var resized := val.None? || !l;
      if val.None? && |entries| == 1 then Update(None, true, resized)
      else if !l && val.Some? && |entries| >= MAX_ARRAY_MAP then
        Update(Some(CreateNodes(entries, key, val.value, hash)), true, resized)
      else Update(Some(ArrayMap(EditEntries(entries, key, val))), true, resized)
  }

  function UpdateRoot<K(==), V(==)>(n: Node<K, V>, key: K, val: Option<V>, hash: K -> Hash): Update<K, V>
    requires WellFormedRoot(n, hash)
  {
    if n.ArrayMap? then UpdateArrayMap(n, key, val, hash) else UpdateNode(n, 0, key, val, hash)
  }

  datatype TrieMap<K, V> = TrieMap(size: int, root: Option<Node<K, V>>) {
    ghost predicate Valid(hash: K -> Hash) {
      root.Some? ==> WellFormedRoot(root.value, hash)
    }
  }

  function Empty<K, V>(): TrieMap<K, V> { TrieMap(0, None) }

  /** `Gt.prototype.get` */
  function Fetch<K(==), V>(m: TrieMap<K, V>, key: K, hash: K -> Hash): Option<V> {
    match m.root
    case None => None
    case Some(n) => Get(n, 0, hash(key), key)
  }

  /** `oe`, that is `set` (with a value) and `remove` (without). */
  function Assign<K(==), V(==)>(m: TrieMap<K, V>, key: K, val: Option<V>, hash: K -> Hash): TrieMap<K, V>
    requires m.Valid(hash)
  {
    match m.root
    case Some(n) =>
      var u := UpdateRoot(n, key, val, hash);
      if !u.altered then m
      else
        var size := m.size + (if u.resized then (if val.None? then -1 else 1) else 0);
        if u.node.Some? then TrieMap(size, u.node) else Empty()
    case None =>
      match val
      case None => m
      case Some(v) => TrieMap(1, Some(ArrayMap([(key, v)])))
  }

  // What the map means.

  ghost function AssignSpec<K, V>(s: map<K, V>, key: K, val: Option<V>): map<K, V> {
    match val
    case Some(v) => s[key := v]
    case None => s - {key}
  }

  ghost function LookupSpec<K, V>(s: map<K, V>, key: K): Option<V> {
    if key in s then Some(s[key]) else None
  }

  /** `m` is well formed and agrees with `s` on every key and on the number of keys. */
  ghost predicate Represents<K(!new), V>(m: TrieMap<K, V>, s: map<K, V>, hash: K -> Hash) {
    && m.Valid(hash)
    && m.size == |s|
    && forall k :: Fetch(m, k, hash) == LookupSpec(s, k)
  }

  lemma {:induction false} SetAllLaw<K, V>(n: Node<K, V>, entries: seq<(K, V)>, hash: K -> Hash, k: K)
    requires WellFormed(n, [], hash) && DistinctKeys(entries)
    ensures WellFormed(SetAll(n, entries, hash), [], hash)
    ensures Get(SetAll(n, entries, hash), 0, hash(k), k)
         == if Find(entries, k).Some? then Find(entries, k) else Get(n, 0, hash(k), k)
    decreases |entries|
  {
    if entries != [] {
      var (k0, v0) := entries[0];
      UpdateKeepsShape(n, 0, k0, Some(v0), hash);
      UpdateLaw(n, 0, k0, Some(v0), hash, k0);
      UpdateLaw(n, 0, k0, Some(v0), hash, k);
      SetAllLaw(UpdateNode(n, 0, k0, Some(v0), hash).node.value, entries[1..], hash, k);
      FindPresent(entries, 0);
      assert IndexOf(entries[1..], k0) == |entries| - 1;
    }
  }

  lemma UpdateRootLaw<K, V>(n: Node<K, V>, key: K, val: Option<V>, hash: K -> Hash, k: K)
    requires WellFormedRoot(n, hash)
    ensures var u, was := UpdateRoot(n, key, val, hash), Get(n, 0, hash(key), key);
            && (u.node.Some? ==> WellFormedRoot(u.node.value, hash))
            && u.altered == (was != val)
            && u.resized == (was.Some? != val.Some?)
            && (!u.altered ==> u.node == Some(n))
            && Lookup(u.node, 0, hash(k), k) == if k == key then val else Get(n, 0, hash(k), k)
  {
    if n.ArrayMap? {
      EditKeepsDistinct(n.entries, key, val);
      FindAfterEdit(n.entries, key, val, k);
      if val.Some? {
        SetAllLaw(Leaf(hash(key), key, val.value), n.entries, hash, k);
      }
    } else {
      UpdateKeepsShape(n, 0, key, val, hash);
      UpdateLaw(n, 0, key, val, hash, k);
      UpdateFlags(n, 0, key, val, hash);
    }
  }

  /** An array map of eight entries turns into a trie with the ninth. */
  lemma KindAfterNinth<K, V>(n: Node<K, V>, key: K, v: V, hash: K -> Hash)
    requires n.ArrayMap? && WellFormedRoot(n, hash) && Get(n, 0, hash(key), key).None?
    ensures var u := UpdateRoot(n, key, Some(v), hash); u.node.Some? && (u.node.value.ArrayMap? <==> |n.entries| < 8)
  {
    UpdateRootLaw(n, key, Some(v), hash, key);
    if |n.entries| >= 8 {
      SetAllLaw(Leaf(hash(key), key, v), n.entries, hash, key);
    }
  }

  lemma EmptyRepresents<K(!new), V>(hash: K -> Hash)
    ensures Represents(Empty<K, V>(), map[], hash)
  {
  }

  lemma AssignSpecSize<K, V>(s: map<K, V>, key: K, val: Option<V>)
    ensures |AssignSpec(s, key, val)|
         == |s| + (if (key in s) == val.Some? then 0 else if val.Some? then 1 else -1)
  {
    var t := AssignSpec(s, key, val);
    if val.Some? {
      assert t.Keys == s.Keys + {key};
    } else {
      assert t.Keys == s.Keys - {key};
    }
    assert |s| == |s.Keys| && |t| == |t.Keys|;
  }

  /** `set` and `remove` change what is found under the key and nothing else. */
  lemma FetchAfterAssign<K, V>(m: TrieMap<K, V>, key: K, val: Option<V>, hash: K -> Hash, k: K)
    requires m.Valid(hash)
    ensures Assign(m, key, val, hash).Valid(hash)
    ensures Fetch(Assign(m, key, val, hash), k, hash) == if k == key then val else Fetch(m, k, hash)
  {
    match m.root
    case Some(n) =>
      hide UpdateRoot, Get, WellFormedRoot;
      UpdateRootLaw(n, key, val, hash, k);
    case None =>
      if val.Some? {
        FindPresent([(key, val.value)], 0);
      }
  }

  lemma SizeAfterAssign<K, V>(m: TrieMap<K, V>, key: K, val: Option<V>, hash: K -> Hash)
    requires m.Valid(hash)
    requires m.root.None? ==> m.size == 0
    ensures var r := Assign(m, key, val, hash);
            if r.root.None? then r.size == 0
            else r.size == m.size + (if Fetch(m, key, hash).Some? == val.Some? then 0 else if val.Some? then 1 else -1)
  {
    if m.root.Some? {
      hide UpdateRoot, Get, WellFormedRoot;
      UpdateRootLaw(m.root.value, key, val, hash, key);
    }
  }

  lemma NothingFound<K(!new), V>(m: TrieMap<K, V>, s: map<K, V>, hash: K -> Hash)
    requires m.root.None?
    requires forall k :: Fetch(m, k, hash) == LookupSpec(s, k)
    ensures s == map[]
  {
    forall k: K
      ensures k !in s
    {
      assert Fetch(m, k, hash) == None;
    }
  }

  /** One `set` or `remove`, on any reachable map and for any hash function. */
  lemma AssignRefines<K(!new), V>(m: TrieMap<K, V>, s: map<K, V>, key: K, val: Option<V>, hash: K -> Hash)
    requires Represents(m, s, hash)
    ensures m.Valid(hash) && Represents(Assign(m, key, val, hash), AssignSpec(s, key, val), hash)
  {
    hide Fetch, Assign;
    var r, t := Assign(m, key, val, hash), AssignSpec(s, key, val);
    forall k
      ensures Fetch(r, k, hash) == LookupSpec(t, k)
    {
      FetchAfterAssign(m, key, val, hash, k);
    }
    FetchAfterAssign(m, key, val, hash, key);
    AssignSpecSize(s, key, val);
    if m.root.None? {
      NothingFound(m, s, hash);
    }
    SizeAfterAssign(m, key, val, hash);
    if r.root.None? {
      NothingFound(r, t, hash);
    }
  }

  // Whole runs.

  /** A step of a run: a key and its new value, or `None` to remove it. */
  datatype Edit<K, V> = Edit(key: K, val: Option<V>)

  ghost function RunSpec<K, V>(s: map<K, V>, edits: seq<Edit<K, V>>): map<K, V>
    decreases |edits|
  {
    if edits == [] then s else RunSpec(AssignSpec(s, edits[0].key, edits[0].val), edits[1..])
  }

  function Run<K(==), V(==)>(m: TrieMap<K, V>, edits: seq<Edit<K, V>>, hash: K -> Hash): TrieMap<K, V>
    requires m.Valid(hash)
    decreases |edits|
  {
    if edits == [] then m
    else
      FetchAfterAssign(m, edits[0].key, edits[0].val, hash, edits[0].key);
      Run(Assign(m, edits[0].key, edits[0].val, hash), edits[1..], hash)
  }

  /** Any sequence of edits leaves `get` and `size` as the mathematical map has them, and the trie well
      formed, whatever the hash function. */
  lemma {:induction false} RunRefines<K(!new), V>(
    m: TrieMap<K, V>, s: map<K, V>, edits: seq<Edit<K, V>>, hash: K -> Hash
  )
    requires Represents(m, s, hash)
    ensures m.Valid(hash) && Represents(Run(m, edits, hash), RunSpec(s, edits), hash)
    decreases |edits|
  {
    if edits != [] {
      var e := edits[0];
      AssignRefines(m, s, e.key, e.val, hash);
      RunRefines(Assign(m, e.key, e.val, hash), AssignSpec(s, e.key, e.val), edits[1..], hash);
    }
  }

  /** Edit `j` is the last before place `n` that is about its key. */
  ghost predicate IsLast<K, V>(edits: seq<Edit<K, V>>, j: int, n: int) {
    0 <= j < n <= |edits| && forall l :: j < l < n ==> edits[l].key != edits[j].key
  }

  lemma {:induction false} NeverEdited<K, V>(m: TrieMap<K, V>, edits: seq<Edit<K, V>>, hash: K -> Hash, key: K)
    requires m.Valid(hash) && forall l :: 0 <= l < |edits| ==> edits[l].key != key
    ensures Fetch(Run(m, edits, hash), key, hash) == Fetch(m, key, hash)
    decreases |edits|
  {
    hide Fetch, Assign;
    if edits != [] {
      FetchAfterAssign(m, edits[0].key, edits[0].val, hash, key);
      NeverEdited(Assign(m, edits[0].key, edits[0].val, hash), edits[1..], hash, key);
    }
  }

  /** The last edit of a key decides what is found under it. */
  lemma {:induction false} LastEditCounts<K, V>(m: TrieMap<K, V>, edits: seq<Edit<K, V>>, hash: K -> Hash, j: int)
    requires m.Valid(hash) && IsLast(edits, j, |edits|)
    ensures Fetch(Run(m, edits, hash), edits[j].key, hash) == edits[j].val
    decreases |edits|
  {
    hide Fetch, Assign;
    var e := edits[0];
    FetchAfterAssign(m, e.key, e.val, hash, e.key);
    if j == 0 {
      NeverEdited(Assign(m, e.key, e.val, hash), edits[1..], hash, e.key);
    } else {
      LastEditCounts(Assign(m, e.key, e.val, hash), edits[1..], hash, j - 1);
    }
  }

  /** From the empty map. */
  lemma HistoryRefines<K(!new), V>(edits: seq<Edit<K, V>>, hash: K -> Hash)
    ensures Represents(Run(Empty<K, V>(), edits, hash), RunSpec(map[], edits), hash)
  {
    EmptyRepresents<K, V>(hash);
    RunRefines(Empty<K, V>(), map[], edits, hash);
  }
}
