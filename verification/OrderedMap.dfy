/** The insertion-ordered map (`Qe`, `qe`): a hash map from keys to positions in a list of entries that
    may have holes, compacted on removal when it is at least half empty. */
module OrderedMap {
  import opened Options
  import opened HashTrie
  import HashMap
  import opened HashTrieLaws

  type Entry<K, V> = Option<(K, V)>

  datatype OrderedMap<K, V> = OrderedMap(index: HashMap.TrieMap<K, nat>, list: seq<Entry<K, V>>)

  /** The entries of a list without its holes, in order. */
  function Entries<K, V>(list: seq<Entry<K, V>>): seq<(K, V)> {
    if list == [] then []
    else
      var last := list[|list| - 1];
      Entries(list[..|list| - 1]) + (if last.Some? then [last.value] else [])
  }

  /** The index that a list calls for. */
  ghost function Positions<K, V>(list: seq<Entry<K, V>>): map<K, nat> {
    if list == [] then map[]
    else
      var n := |list| - 1;
      if list[n].Some? then Positions(list[..n])[list[n].value.0 := n] else Positions(list[..n])
  }

  ghost predicate DistinctEntries<K, V>(list: seq<Entry<K, V>>) {
    forall i, j :: 0 <= i < j < |list| && list[i].Some? && list[j].Some? ==> list[i].value.0 != list[j].value.0
  }

  ghost predicate Valid<K(!new), V>(m: OrderedMap<K, V>, hash: K -> Hash) {
    && DistinctEntries(m.list)
    && HashMap.Represents(m.index, Positions(m.list), hash)
  }

  function Size<K, V>(m: OrderedMap<K, V>): int { m.index.size }

  function Empty<K, V>(): OrderedMap<K, V> { OrderedMap(HashMap.Empty(), []) }

  /** The index of a compacted list: `flip` and `toMap`. */
  function BuildIndex<K(==), V>(kept: seq<(K, V)>, n: nat, hash: K -> Hash): (r: HashMap.TrieMap<K, nat>)
    requires n <= |kept|
    ensures r.Valid(hash)
  {
    if n == 0 then HashMap.Empty()
    else
      var r := BuildIndex(kept, n - 1, hash);
      HashMap.FetchAfterAssign(r, kept[n - 1].0, Some(n - 1), hash, kept[n - 1].0);
      HashMap.Assign(r, kept[n - 1].0, Some(n - 1), hash)
  }

  /** A list without holes. */
  function Compacted<K, V>(kept: seq<(K, V)>): seq<Entry<K, V>> {
    seq(|kept|, (i: nat) requires i < |kept| => Some(kept[i]))
  }

  lemma {:induction false} PositionsInverse<K, V>(list: seq<Entry<K, V>>, k: K)
    ensures k in Positions(list) ==>
              && Positions(list)[k] < |list|
              && list[Positions(list)[k]].Some?
              && list[Positions(list)[k]].value.0 == k
    ensures forall i :: 0 <= i < |list| && list[i].Some? && list[i].value.0 == k ==>
              k in Positions(list) && i <= Positions(list)[k]
  {
    if list != [] {
      PositionsInverse(list[..|list| - 1], k);
    }
  }

  /** `Qe.prototype.get` */
  function Fetch<K(==,!new), V>(m: OrderedMap<K, V>, key: K, hash: K -> Hash): Option<V>
    requires Valid(m, hash)
  {
    match HashMap.Fetch(m.index, key, hash)
    case None => None
    case Some(u) => PositionsInverse(m.list, key); Some(m.list[u].value.1)
  }

  /** `qe`, that is `set` (with a value) and `remove` (without). */
  function Put<K(==,!new), V(==)>(m: OrderedMap<K, V>, key: K, val: Option<V>, hash: K -> Hash): OrderedMap<K, V>
    requires Valid(m, hash)
  {
    var found := HashMap.Fetch(m.index, key, hash);
    PositionsInverse(m.list, key);
    match val
    case None =>
      if found.None? then m
      else
        var u := found.value;
        if |m.list| >= 32 && |m.list| >= 2 * m.index.size then
          var kept := Entries(m.list[u := None]);
          OrderedMap(BuildIndex(kept, |kept|, hash), Compacted(kept))
        else
          OrderedMap(
            HashMap.Assign(m.index, key, None, hash),
            if u == |m.list| - 1 then m.list[..u] else m.list[u := None])
    case Some(v) =>
      if found.Some? then
        var u := found.value;
        if m.list[u].value.1 == v then m else m.(list := m.list[u := Some((key, v))])
      else
        OrderedMap(HashMap.Assign(m.index, key, Some(|m.list|), hash), m.list + [Some((key, v))])
  }

  // The specification: a list of pairs with distinct keys, in insertion order.

  function PutSpec<K(==), V>(entries: seq<(K, V)>, key: K, val: Option<V>): seq<(K, V)> {
    var c := IndexOf(entries, key);
    match val
    case Some(v) => if c < |entries| then entries[c := (key, v)] else entries + [(key, v)]
    case None => if c < |entries| then entries[..c] + entries[c + 1..] else entries
  }

  // How edits of the list show in its entries and its index.

  lemma {:induction false} EntryAt<K, V>(list: seq<Entry<K, V>>, u: nat)
    requires u < |list| && list[u].Some?
    ensures |Entries(list[..u])| < |Entries(list)|
    ensures Entries(list)[|Entries(list[..u])|] == list[u].value
  {
    var n := |list| - 1;
    if u < n {
      EntryAt(list[..n], u);
      assert list[..n][..u] == list[..u];
    }
  }

  lemma {:induction false} EntriesSplit<K, V>(a: seq<Entry<K, V>>, b: seq<Entry<K, V>>)
    ensures Entries(a + b) == Entries(a) + Entries(b)
    decreases |b|
  {
    if b == [] {
      assert a + b == a;
    } else {
      var n := |b| - 1;
      assert (a + b)[..|a| + n] == a + b[..n];
      EntriesSplit(a, b[..n]);
    }
  }

  lemma EntriesOfOne<K, V>(e: Entry<K, V>)
    ensures Entries([e]) == if e.Some? then [e.value] else []
  {
    assert [e][..0] == [];
  }

  lemma EntriesAround<K, V>(list: seq<Entry<K, V>>, u: nat, e: Entry<K, V>)
    requires u < |list|
    ensures Entries(list[u := e]) == Entries(list[..u]) + (if e.Some? then [e.value] else []) + Entries(list[u + 1..])
  {
    hide Entries;
    assert list[u := e] == list[..u] + [e] + list[u + 1..];
    EntriesSplit(list[..u] + [e], list[u + 1..]);
    EntriesSplit(list[..u], [e]);
    EntriesOfOne(e);
  }

  lemma EntriesAfterEdit<K, V>(list: seq<Entry<K, V>>, u: nat, e: Entry<K, V>)
    requires u < |list| && list[u].Some?
    ensures |Entries(list[..u])| < |Entries(list)|
    ensures var c := |Entries(list[..u])|;
            Entries(list[u := e]) == Entries(list)[..c] + (if e.Some? then [e.value] else []) + Entries(list)[c + 1..]
  {
    hide Entries;
    EntriesAround(list, u, e);
    EntriesAround(list, u, list[u]);
    assert list[u := list[u]] == list;
  }

  lemma {:induction false} PositionsAfterEdit<K, V>(list: seq<Entry<K, V>>, u: nat, e: Entry<K, V>)
    requires u < |list| && list[u].Some? && DistinctEntries(list)
    requires e.Some? ==> e.value.0 == list[u].value.0
    ensures Positions(list[u := e]) == if e.Some? then Positions(list) else Positions(list) - {list[u].value.0}
  {
    var n := |list| - 1;
    var k := list[u].value.0;
    if u < n {
      PositionsAfterEdit(list[..n], u, e);
      assert list[u := e][..n] == list[..n][u := e];
    } else {
      assert list[u := e][..n] == list[..n];
      PositionsInverse(list[..n], k);
    }
  }

  lemma {:induction false} EntryComesFrom<K, V>(list: seq<Entry<K, V>>, c: nat) returns (i: nat)
    requires c < |Entries(list)|
    ensures i < |list| && list[i] == Some(Entries(list)[c]) && |Entries(list[..i])| == c
  {
    var n := |list| - 1;
    if c < |Entries(list[..n])| {
      i := EntryComesFrom(list[..n], c);
      assert list[..n][..i] == list[..i];
    } else {
      i := n;
    }
  }

  lemma EntriesAreDistinct<K, V>(list: seq<Entry<K, V>>)
    requires DistinctEntries(list)
    ensures DistinctKeys(Entries(list))
  {
    var es := Entries(list);
    forall c, d | 0 <= c < d < |es|
      ensures es[c].0 != es[d].0
    {
      var i := EntryComesFrom(list, c);
      var j := EntryComesFrom(list, d);
      assert i != j;
      assert if i < j then list[i].value.0 != list[j].value.0 else list[j].value.0 != list[i].value.0;
    }
  }

  lemma {:induction false} PositionsSize<K, V>(list: seq<Entry<K, V>>)
    requires DistinctEntries(list)
    ensures |Positions(list)| == |Entries(list)|
  {
    if list != [] {
      var n := |list| - 1;
      PositionsSize(list[..n]);
      if list[n].Some? {
        var k := list[n].value.0;
        PositionsInverse(list[..n], k);
        assert Positions(list).Keys == Positions(list[..n]).Keys + {k};
        assert |Positions(list).Keys| == |Positions(list)|;
      }
    }
  }

  /** A key's place among the entries is the number of entries before its position in the list. */
  lemma PlaceOfKey<K, V>(list: seq<Entry<K, V>>, k: K)
    requires DistinctEntries(list)
    ensures if k in Positions(list)
              then Positions(list)[k] < |list|
                && list[Positions(list)[k]].Some? && list[Positions(list)[k]].value.0 == k
                && IndexOf(Entries(list), k) == |Entries(list[..Positions(list)[k]])| < |Entries(list)|
              else IndexOf(Entries(list), k) == |Entries(list)|
  {
    EntriesAreDistinct(list);
    PositionsInverse(list, k);
    var c := IndexOf(Entries(list), k);
    if k in Positions(list) {
      EntryAt(list, Positions(list)[k]);
      FindPresent(Entries(list), |Entries(list[..Positions(list)[k]])|);
    } else if c < |Entries(list)| {
      var i := EntryComesFrom(list, c);
    }
  }

  /** `get` finds what the list of entries holds, and `size` is its length. */
  lemma FetchLaw<K(!new), V>(m: OrderedMap<K, V>, key: K, hash: K -> Hash)
    requires Valid(m, hash)
    ensures Fetch(m, key, hash) == Find(Entries(m.list), key)
    ensures Size(m) == |Entries(m.list)|
  {
    PlaceOfKey(m.list, key);
    PositionsSize(m.list);
    if key in Positions(m.list) {
      EntryAt(m.list, Positions(m.list)[key]);
    }
  }

  lemma {:induction false} CompactedEntries<K, V>(kept: seq<(K, V)>, n: nat)
    requires n <= |kept|
    ensures Entries(Compacted(kept)[..n]) == kept[..n]
  {
    if n > 0 {
      CompactedEntries(kept, n - 1);
      assert Compacted(kept)[..n][..n - 1] == Compacted(kept)[..n - 1];
    }
  }

  lemma {:induction false} CompactedIndex<K(!new), V>(kept: seq<(K, V)>, n: nat, hash: K -> Hash)
    requires n <= |kept|
    ensures HashMap.Represents(BuildIndex(kept, n, hash), Positions(Compacted(kept)[..n]), hash)
  {
    if n > 0 {
      hide HashMap.Represents, HashMap.Fetch, HashMap.Assign, HashMap.TrieMap.Valid;
      CompactedIndex(kept, n - 1, hash);
      var list := Compacted(kept)[..n];
      assert list[..n - 1] == Compacted(kept)[..n - 1];
      assert Positions(list) == Positions(list[..n - 1])[kept[n - 1].0 := n - 1];
      HashMap.AssignRefines(BuildIndex(kept, n - 1, hash), Positions(list[..n - 1]), kept[n - 1].0, Some(n - 1), hash);
    }
  }

  /** Compaction keeps the entries and rebuilds a matching index. */
  lemma CompactionLaw<K(!new), V>(kept: seq<(K, V)>, hash: K -> Hash)
    requires DistinctKeys(kept)
    ensures Valid(OrderedMap(BuildIndex(kept, |kept|, hash), Compacted(kept)), hash)
    ensures Entries(Compacted(kept)) == kept
  {
    CompactedEntries(kept, |kept|);
    CompactedIndex(kept, |kept|, hash);
    hide HashMap.Represents, Positions, Entries;
    assert Compacted(kept)[..|kept|] == Compacted(kept);
  }

  // One step.

  lemma FoundAtPosition<K(!new), V>(m: OrderedMap<K, V>, key: K, hash: K -> Hash)
    requires Valid(m, hash)
    ensures HashMap.Fetch(m.index, key, hash) == HashMap.LookupSpec(Positions(m.list), key)
  {
  }

  /** Setting a present key changes its value and nothing else: every key stays where it was. */
  lemma OverwriteLaw<K(!new), V>(m: OrderedMap<K, V>, key: K, v: V, hash: K -> Hash)
    requires Valid(m, hash) && Fetch(m, key, hash).Some?
    ensures Valid(Put(m, key, Some(v), hash), hash)
    ensures Entries(Put(m, key, Some(v), hash).list) == PutSpec(Entries(m.list), key, Some(v))
    ensures var es, r := Entries(m.list), Entries(Put(m, key, Some(v), hash).list);
            && |r| == |es| && (exists c :: 0 <= c < |es| && es[c].0 == key)
            && forall c :: 0 <= c < |es| ==> r[c] == if es[c].0 == key then (key, v) else es[c]
  {
    FoundAtPosition(m, key, hash);
    PlaceOfKey(m.list, key);
    EntriesAreDistinct(m.list);
    hide HashMap.Represents, HashMap.Fetch, HashMap.Assign, Entries, Positions, BuildIndex;
    var u := Positions(m.list)[key];
    EntriesAfterEdit(m.list, u, Some((key, v)));
    PositionsAfterEdit(m.list, u, Some((key, v)));
    EntryAt(m.list, u);
    var es, c := Entries(m.list), |Entries(m.list[..u])|;
    assert es[c := (key, v)] == es[..c] + [(key, v)] + es[c + 1..];
  }

  /** Setting an absent key appends it. */
  lemma AppendLaw<K(!new), V>(m: OrderedMap<K, V>, key: K, v: V, hash: K -> Hash)
    requires Valid(m, hash) && Fetch(m, key, hash).None?
    ensures Valid(Put(m, key, Some(v), hash), hash)
    ensures Entries(Put(m, key, Some(v), hash).list) == PutSpec(Entries(m.list), key, Some(v))
    ensures Entries(Put(m, key, Some(v), hash).list) == Entries(m.list) + [(key, v)]
  {
    FoundAtPosition(m, key, hash);
    HashMap.AssignRefines(m.index, Positions(m.list), key, Some(|m.list|), hash);
    hide HashMap.Represents, HashMap.Fetch, HashMap.Assign;
    PlaceOfKey(m.list, key);
    var list := m.list + [Some((key, v))];
    assert list[..|m.list|] == m.list;
    PositionsInverse(m.list, key);
  }

  lemma PunchHole<K, V>(list: seq<Entry<K, V>>, key: K)
    requires DistinctEntries(list) && key in Positions(list)
    ensures var u := Positions(list)[key];
            && u < |list|
            && DistinctEntries(list[u := None])
            && Entries(list[u := None]) == PutSpec(Entries(list), key, None)
            && Positions(list[u := None]) == Positions(list) - {key}
            && (u == |list| - 1 ==>
                  Entries(list[..u]) == Entries(list[u := None]) && Positions(list[..u]) == Positions(list[u := None]))
  {
    PlaceOfKey(list, key);
    var u := Positions(list)[key];
    EntriesAfterEdit(list, u, None);
    PositionsAfterEdit(list, u, None);
    if u == |list| - 1 {
      assert list[u := None][..u] == list[..u];
    }
  }

  /** Removing takes the key's own entry out and leaves the others in their order; an absent key changes nothing. */
  lemma RemoveLaw<K(!new), V>(m: OrderedMap<K, V>, key: K, hash: K -> Hash)
    requires Valid(m, hash)
    ensures Valid(Put(m, key, None, hash), hash)
    ensures Entries(Put(m, key, None, hash).list) == PutSpec(Entries(m.list), key, None)
    ensures var es, r := Entries(m.list), Entries(Put(m, key, None, hash).list);
            if Fetch(m, key, hash).None? then r == es
            else exists c :: 0 <= c < |es| && es[c].0 == key && r == es[..c] + es[c + 1..]
  {
    FoundAtPosition(m, key, hash);
    HashMap.AssignRefines(m.index, Positions(m.list), key, None, hash);
    PlaceOfKey(m.list, key);
    hide HashMap.Represents, HashMap.Fetch, HashMap.Assign, DistinctKeys, Entries, Positions, BuildIndex;
    if key in Positions(m.list) {
      PunchHole(m.list, key);
      var kept := Entries(m.list[Positions(m.list)[key] := None]);
      EntriesAreDistinct(m.list[Positions(m.list)[key] := None]);
      CompactionLaw(kept, hash);
      var es, c := Entries(m.list), IndexOf(Entries(m.list), key);
      assert es[c].0 == key && Entries(Put(m, key, None, hash).list) == es[..c] + es[c + 1..];
    }
  }

  /** `set` and `remove` act on the entries as on a plain insertion-ordered list of pairs: overwriting
      keeps a key's place, a new key goes last, removal closes the gap, across every compaction. */
  lemma PutRefines<K(!new), V>(m: OrderedMap<K, V>, key: K, val: Option<V>, hash: K -> Hash)
    requires Valid(m, hash)
    ensures Valid(Put(m, key, val, hash), hash)
    ensures Entries(Put(m, key, val, hash).list) == PutSpec(Entries(m.list), key, val)
  {
    match val
    case Some(v) =>
      if Fetch(m, key, hash).Some? {
        OverwriteLaw(m, key, v, hash);
      } else {
        AppendLaw(m, key, v, hash);
      }
    case None => RemoveLaw(m, key, hash);
  }

  lemma FindsOwn<K, V>(es: seq<(K, V)>, c: nat, k: K)
    requires DistinctKeys(es) && c < |es| && es[c].0 == k
    ensures Find(es, k) == Some(es[c].1)
  {
    FindPresent(es, c);
  }

  lemma FindAfterSet<K, V>(es: seq<(K, V)>, key: K, v: V, k: K)
    requires DistinctKeys(es)
    ensures DistinctKeys(PutSpec(es, key, Some(v)))
    ensures Find(PutSpec(es, key, Some(v)), k) == if k == key then Some(v) else Find(es, k)
    ensures |PutSpec(es, key, Some(v))| == |es| + (if Find(es, key).Some? then 0 else 1)
  {
    var r := PutSpec(es, key, Some(v));
    if k == key {
      FindsOwn(r, IndexOf(es, key), k);
    } else if IndexOf(es, k) < |es| {
      FindsOwn(r, IndexOf(es, k), k);
    }
  }

  lemma FindAfterDrop<K, V>(es: seq<(K, V)>, key: K, k: K)
    requires DistinctKeys(es)
    ensures DistinctKeys(PutSpec(es, key, None))
    ensures Find(PutSpec(es, key, None), k) == if k == key then None else Find(es, k)
    ensures |PutSpec(es, key, None)| == |es| - (if Find(es, key).Some? then 1 else 0)
  {
    var c, d := IndexOf(es, key), IndexOf(es, k);
    if k != key && d < |es| {
      FindsOwn(PutSpec(es, key, None), if c < d then d - 1 else d, k);
    }
  }

  /** `set` and `remove` change what `get` finds under the key and nothing else, and count the keys. */
  lemma FetchAfterPut<K(!new), V>(m: OrderedMap<K, V>, key: K, val: Option<V>, hash: K -> Hash, k: K)
    requires Valid(m, hash)
    ensures Valid(Put(m, key, val, hash), hash)
    ensures Fetch(Put(m, key, val, hash), k, hash) == if k == key then val else Fetch(m, k, hash)
    ensures Size(Put(m, key, val, hash))
         == Size(m) + (if Fetch(m, key, hash).Some? == val.Some? then 0 else if val.Some? then 1 else -1)
  {
    hide Valid, Fetch, Put, Size, Entries, PutSpec, DistinctEntries, DistinctKeys;
    PutRefines(m, key, val, hash);
    FetchLaw(m, k, hash);
    FetchLaw(m, key, hash);
    FetchLaw(Put(m, key, val, hash), k, hash);
    ValidIsDistinct(m, hash);
    match val
    case Some(v) => FindAfterSet(Entries(m.list), key, v, k);
    case None => FindAfterDrop(Entries(m.list), key, k);
  }

  lemma ValidIsDistinct<K(!new), V>(m: OrderedMap<K, V>, hash: K -> Hash)
    requires Valid(m, hash)
    ensures DistinctKeys(Entries(m.list))
  {
    EntriesAreDistinct(m.list);
  }

  // Holes.

  function Holes<K, V>(m: OrderedMap<K, V>): int { |m.list| - Size(m) }

  function Max(a: int, b: int): int { if a < b then b else a }

  ghost predicate FewHoles<K, V>(m: OrderedMap<K, V>) { 0 <= Holes(m) <= Max(31, Size(m) + 1) }

  lemma {:induction false} EntriesFit<K, V>(list: seq<Entry<K, V>>)
    ensures |Entries(list)| <= |list|
  {
    if list != [] {
      EntriesFit(list[..|list| - 1]);
    }
  }

  lemma PutKeepsFewHoles<K(!new), V>(m: OrderedMap<K, V>, key: K, val: Option<V>, hash: K -> Hash)
    requires Valid(m, hash) && FewHoles(m)
    ensures FewHoles(Put(m, key, val, hash))
  {
    hide HashMap.Represents, HashMap.Fetch, HashMap.Assign, BuildIndex, Entries, Positions;
    PutRefines(m, key, val, hash);
    FetchLaw(m, key, hash);
    FetchLaw(Put(m, key, val, hash), key, hash);
    FoundAtPosition(m, key, hash);
    EntriesFit(Put(m, key, val, hash).list);
    PlaceOfKey(m.list, key);
    if val.None? && key in Positions(m.list) {
      PunchHole(m.list, key);
    }
  }

  /** Removing a key compacts a list of at least 32 places that is at least half empty; any other only gets a hole, or
      is cut at its end. */
  lemma RemovalCompacts<K(!new), V>(m: OrderedMap<K, V>, key: K, hash: K -> Hash)
    requires Valid(m, hash) && Fetch(m, key, hash).Some?
    ensures var r := Put(m, key, None, hash);
            if |m.list| >= 32 && |m.list| >= 2 * Size(m) then Holes(r) == 0
            else Holes(r) == Holes(m) + 1 || r.list == m.list[..|m.list| - 1]
  {
    FoundAtPosition(m, key, hash);
    FetchAfterPut(m, key, None, hash, key);
    FetchLaw(m, key, hash);
    FetchLaw(Put(m, key, None, hash), key, hash);
    hide HashMap.Represents, HashMap.Fetch, HashMap.Assign, BuildIndex, Entries, Positions;
    PlaceOfKey(m.list, key);
    PunchHole(m.list, key);
  }

  // Whole runs.

  function RunSpec<K(==), V>(entries: seq<(K, V)>, edits: seq<HashMap.Edit<K, V>>): seq<(K, V)>
    decreases |edits|
  {
    if edits == [] then entries else RunSpec(PutSpec(entries, edits[0].key, edits[0].val), edits[1..])
  }

  function Run<K(==,!new), V(==)>(m: OrderedMap<K, V>, edits: seq<HashMap.Edit<K, V>>, hash: K -> Hash)
    : OrderedMap<K, V>
    requires Valid(m, hash)
    decreases |edits|
  {
    if edits == [] then m
    else
      PutRefines(m, edits[0].key, edits[0].val, hash);
      Run(Put(m, edits[0].key, edits[0].val, hash), edits[1..], hash)
  }

  lemma {:induction false} RunRefines<K(!new), V>(m: OrderedMap<K, V>, edits: seq<HashMap.Edit<K, V>>, hash: K -> Hash)
    requires Valid(m, hash) && FewHoles(m)
    ensures var r := Run(m, edits, hash);
            Valid(r, hash) && FewHoles(r) && Entries(r.list) == RunSpec(Entries(m.list), edits)
    decreases |edits|
  {
    if edits != [] {
      var e := edits[0];
      PutRefines(m, e.key, e.val, hash);
      PutKeepsFewHoles(m, e.key, e.val, hash);
      RunRefines(Put(m, e.key, e.val, hash), edits[1..], hash);
    }
  }

  lemma EmptyIsValid<K(!new), V>(hash: K -> Hash)
    ensures Valid(Empty<K, V>(), hash)
  {
    HashMap.EmptyRepresents<K, nat>(hash);
  }

  lemma {:induction false} NeverEdited<K(!new), V>(
    m: OrderedMap<K, V>, edits: seq<HashMap.Edit<K, V>>, hash: K -> Hash, key: K
  )
    requires Valid(m, hash) && forall l :: 0 <= l < |edits| ==> edits[l].key != key
    ensures Valid(Run(m, edits, hash), hash)
    ensures Fetch(Run(m, edits, hash), key, hash) == Fetch(m, key, hash)
    decreases |edits|
  {
    hide Valid, Fetch, Put;
    if edits != [] {
      FetchAfterPut(m, edits[0].key, edits[0].val, hash, key);
      NeverEdited(Put(m, edits[0].key, edits[0].val, hash), edits[1..], hash, key);
    }
  }

  /** The last edit of a key decides what is found under it. */
  lemma {:induction false} LastEditCounts<K(!new), V>(
    m: OrderedMap<K, V>, edits: seq<HashMap.Edit<K, V>>, hash: K -> Hash, j: int
  )
    requires Valid(m, hash) && HashMap.IsLast(edits, j, |edits|)
    ensures Valid(Run(m, edits, hash), hash)
    ensures Fetch(Run(m, edits, hash), edits[j].key, hash) == edits[j].val
    decreases |edits|
  {
    hide Valid, Fetch, Put;
    var e := edits[0];
    FetchAfterPut(m, e.key, e.val, hash, e.key);
    if j == 0 {
      NeverEdited(Put(m, e.key, e.val, hash), edits[1..], hash, e.key);
    } else {
      LastEditCounts(Put(m, e.key, e.val, hash), edits[1..], hash, j - 1);
    }
  }

  lemma {:induction false} RunLast<K(!new), V>(m: OrderedMap<K, V>, edits: seq<HashMap.Edit<K, V>>, hash: K -> Hash)
    requires Valid(m, hash) && edits != []
    ensures var n := |edits| - 1;
            && Valid(Run(m, edits[..n], hash), hash) && Valid(Run(m, edits, hash), hash)
            && Run(m, edits, hash) == Put(Run(m, edits[..n], hash), edits[n].key, edits[n].val, hash)
    decreases |edits|
  {
    hide Valid, Put;
    var e, n := edits[0], |edits| - 1;
    FetchAfterPut(m, e.key, e.val, hash, e.key);
    if n > 0 {
      RunLast(Put(m, e.key, e.val, hash), edits[1..], hash);
      assert edits[..n][1..] == edits[1..][..n - 1];
    }
  }

  /** Edit `i` is the one from which the key is there: it sets the key, whose last edit before it, if any, was a
      removal, and no later edit removes it. */
  ghost predicate Enters<K, V>(edits: seq<HashMap.Edit<K, V>>, i: nat, key: K) {
    && i < |edits| && edits[i].key == key && edits[i].val.Some?
    && (forall j :: HashMap.IsLast(edits, j, i) && edits[j].key == key ==> edits[j].val.None?)
    && (forall j :: i < j < |edits| && edits[j].key == key ==> edits[j].val.Some?)
  }

  lemma StillEntered<K, V>(edits: seq<HashMap.Edit<K, V>>, i: nat, key: K)
    requires edits != [] && Enters(edits[..|edits| - 1], i, key)
    requires edits[|edits| - 1].key == key ==> edits[|edits| - 1].val.Some?
    ensures Enters(edits, i, key)
  {
    var front := edits[..|edits| - 1];
    forall j | HashMap.IsLast(edits, j, i) && edits[j].key == key ensures edits[j].val.None? {
      assert HashMap.IsLast(front, j, i);
    }
  }

  lemma NowEntered<K(!new), V>(edits: seq<HashMap.Edit<K, V>>, m: OrderedMap<K, V>, hash: K -> Hash)
    requires edits != [] && edits[|edits| - 1].val.Some? && Valid(Empty<K, V>(), hash) && Valid(m, hash)
    requires m == Run(Empty<K, V>(), edits[..|edits| - 1], hash)
    requires Fetch(m, edits[|edits| - 1].key, hash).None?
    ensures Enters(edits, |edits| - 1, edits[|edits| - 1].key)
  {
    hide Valid, Fetch, Run;
    var n, key := |edits| - 1, edits[|edits| - 1].key;
    forall j | HashMap.IsLast(edits, j, n) && edits[j].key == key ensures edits[j].val.None? {
      assert HashMap.IsLast(edits[..n], j, n);
      LastEditCounts(Empty<K, V>(), edits[..n], hash, j);
    }
  }

  /** The edits that the entries of a map entered with: one each, in the same order. */
  ghost predicate InOrder<K, V>(edits: seq<HashMap.Edit<K, V>>, es: seq<(K, V)>, at: seq<nat>) {
    && |at| == |es|
    && (forall c :: 0 <= c < |es| ==> Enters(edits, at[c], es[c].0))
    && (forall c, d :: 0 <= c < d < |es| ==> at[c] < at[d])
  }

  lemma OrderAfterSet<K(!new), V>(
    edits: seq<HashMap.Edit<K, V>>, m: OrderedMap<K, V>, v: V, hash: K -> Hash, at: seq<nat>
  ) returns (r: seq<nat>)
    requires Valid(Empty<K, V>(), hash) && Valid(m, hash) && edits != [] && edits[|edits| - 1].val == Some(v)
    requires m == Run(Empty<K, V>(), edits[..|edits| - 1], hash)
    requires InOrder(edits[..|edits| - 1], Entries(m.list), at)
    ensures InOrder(edits, Entries(Put(m, edits[|edits| - 1].key, Some(v), hash).list), r)
  {
    hide Valid, Fetch, Put, Run, Entries;
    var n, key, es := |edits| - 1, edits[|edits| - 1].key, Entries(m.list);
    forall c | 0 <= c < |es| ensures Enters(edits, at[c], es[c].0) && at[c] < n {
      StillEntered(edits, at[c], es[c].0);
    }
    if Fetch(m, key, hash).Some? {
      OverwriteLaw(m, key, v, hash);
      r := at;
    } else {
      AppendLaw(m, key, v, hash);
      NowEntered(edits, m, hash);
      r := at + [n];
    }
  }

  lemma OrderWithout<K, V>(edits: seq<HashMap.Edit<K, V>>, es: seq<(K, V)>, at: seq<nat>, c: nat)
    requires edits != [] && edits[|edits| - 1].val.None? && c < |es| && edits[|edits| - 1].key == es[c].0
    requires DistinctKeys(es) && InOrder(edits[..|edits| - 1], es, at)
    ensures InOrder(edits, es[..c] + es[c + 1..], at[..c] + at[c + 1..])
  {
    hide Enters;
    forall d | 0 <= d < |es| && d != c ensures Enters(edits, at[d], es[d].0) {
      StillEntered(edits, at[d], es[d].0);
    }
  }

  lemma OrderAfterRemove<K(!new), V>(
    edits: seq<HashMap.Edit<K, V>>, m: OrderedMap<K, V>, hash: K -> Hash, at: seq<nat>
  ) returns (r: seq<nat>)
    requires Valid(m, hash) && edits != [] && edits[|edits| - 1].val.None?
    requires InOrder(edits[..|edits| - 1], Entries(m.list), at)
    ensures InOrder(edits, Entries(Put(m, edits[|edits| - 1].key, None, hash).list), r)
  {
    hide Valid, Fetch, Put, Entries, Enters;
    var key, es := edits[|edits| - 1].key, Entries(m.list);
    RemoveLaw(m, key, hash);
    FetchLaw(m, key, hash);
    ValidIsDistinct(m, hash);
    if Fetch(m, key, hash).None? {
      r := at;
      forall c | 0 <= c < |es| ensures Enters(edits, at[c], es[c].0) {
        StillEntered(edits, at[c], es[c].0);
      }
    } else {
      var rest := Entries(Put(m, key, None, hash).list);
      var c :| 0 <= c < |es| && es[c].0 == key && rest == es[..c] + es[c + 1..];
      OrderWithout(edits, es, at, c);
      r := at[..c] + at[c + 1..];
    }
  }

  /** After any history from the empty map the entries stand in the order in which their keys came, where a key that
      was removed and set again came the second time. */
  lemma {:induction false} EntriesInOrder<K(!new), V>(edits: seq<HashMap.Edit<K, V>>, hash: K -> Hash)
    returns (at: seq<nat>)
    ensures Valid(Empty<K, V>(), hash) && Valid(Run(Empty<K, V>(), edits, hash), hash)
    ensures InOrder(edits, Entries(Run(Empty<K, V>(), edits, hash).list), at)
    decreases |edits|
  {
    hide Valid, Fetch, Put, Run, Entries, Enters;
    EmptyIsValid<K, V>(hash);
    if edits == [] {
      RunOfNothing(edits, hash);
      at := [];
    } else {
      var n, e := |edits| - 1, edits[|edits| - 1];
      RunLast(Empty<K, V>(), edits, hash);
      at := EntriesInOrder(edits[..n], hash);
      var m := Run(Empty<K, V>(), edits[..n], hash);
      match e.val
      case Some(v) => at := OrderAfterSet(edits, m, v, hash, at);
      case None => at := OrderAfterRemove(edits, m, hash, at);
    }
  }

  lemma RunOfNothing<K(!new), V>(edits: seq<HashMap.Edit<K, V>>, hash: K -> Hash)
    requires Valid(Empty<K, V>(), hash) && edits == []
    ensures Run(Empty<K, V>(), edits, hash) == Empty() && Entries(Run(Empty<K, V>(), edits, hash).list) == []
  {
  }

  lemma EmptyHasNothing<K(!new), V>(key: K, hash: K -> Hash)
    ensures Valid(Empty<K, V>(), hash) && FewHoles(Empty<K, V>())
    ensures Fetch(Empty<K, V>(), key, hash) == None && Entries(Empty<K, V>().list) == []
  {
    EmptyIsValid<K, V>(hash);
  }

  /** After any history from the empty map: `get`, `size` and the order of iteration are those of the list
      specification, the last edit of a key decides what is found under it, the entries stand in the order in which they
      entered, and the list never has more than max(31, size + 1) holes. */
  lemma HistoryRefines<K(!new), V>(edits: seq<HashMap.Edit<K, V>>, key: K, hash: K -> Hash) returns (at: seq<nat>)
    ensures Valid(Empty<K, V>(), hash)
    ensures var r, s := Run(Empty<K, V>(), edits, hash), RunSpec([], edits);
            && Valid(r, hash)
            && Entries(r.list) == s && InOrder(edits, s, at)
            && Fetch(r, key, hash) == Find(s, key)
            && (forall j :: HashMap.IsLast(edits, j, |edits|) && edits[j].key == key ==>
                  Fetch(r, key, hash) == edits[j].val)
            && ((forall j :: 0 <= j < |edits| ==> edits[j].key != key) ==> Fetch(r, key, hash) == None)
            && Size(r) == |s|
            && Holes(r) <= Max(31, |s| + 1)
  {
    hide Valid, Fetch, Run, RunSpec, Entries, InOrder;
    var m: OrderedMap<K, V> := Empty();
    EmptyHasNothing<K, V>(key, hash);
    RunRefines(m, edits, hash);
    FetchLaw(Run(m, edits, hash), key, hash);
    at := EntriesInOrder(edits, hash);
    forall j | HashMap.IsLast(edits, j, |edits|) && edits[j].key == key
      ensures Fetch(Run(m, edits, hash), key, hash) == edits[j].val
    {
      LastEditCounts(m, edits, hash, j);
    }
    if forall j :: 0 <= j < |edits| ==> edits[j].key != key {
      NeverEdited(m, edits, hash, key);
    }
  }
}
