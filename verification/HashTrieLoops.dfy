/** The loops inside the trie's node operations, as the source runs them. */
module HashTrieLoops {
  import opened BitCount
  import opened Options
  import opened HashTrie
  import opened HashTrieLaws
  import opened HashMap

  /** The search loop of `Zt.get`, `Xt.get` and their updates. */
  method FindLoop<K(==), V>(entries: seq<(K, V)>, key: K) returns (c: nat)
    ensures c == IndexOf(entries, key)
  {
    c := 0;
    while c < |entries| && entries[c].0 != key
      invariant c <= |entries|
      invariant forall j :: 0 <= j < c ==> entries[j].0 != key
    {
      c := c + 1;
    }
    assert c == IndexOf(entries, key);
  }

  lemma ShrNext(t: bv32, u: nat)
    ensures Shr(t, u + 1) == Half(Shr(t, u))
    ensures Bit(t, u) == Odd(Shr(t, u))
  {
    hide Half, Odd;
    ShrShr(t, u, 1);
    assert Shr(Shr(t, u), 1) == Half(Shr(t, u));
    BitShr(t, u, 0);
  }

  lemma ShrZero(t: bv32, u: nat, j: nat)
    requires Shr(t, u) == 0 && u <= j
    ensures !Bit(t, j)
  {
    hide Half, Odd;
    BitShr(t, u, j - u);
    BitOfZero(j - u);
  }

  /** The loop of `le`: walk the bitmap from its lowest bit, handing out the children in order. */
  method ExpandLoop<K, V>(n: Node<K, V>, slot: nat, c: Node<K, V>) returns (r: Node<K, V>)
    requires n.Bitmap? && |n.nodes| == Count(n.bitmap, 32)
    requires slot < 32
    ensures r == Expand(n, slot, c)
  {
    hide Half, Odd, Bit, Has, Position;
    var e, bits := n.nodes, n.bitmap;
    var s := new Option<Node<K, V>>[32](_ => None);
    var o, u := 0, 0;
    assert Shr(n.bitmap, 0) == n.bitmap;
    while bits != 0
      invariant u <= 32 && bits == Shr(n.bitmap, u)
      invariant o == Count(n.bitmap, u) <= |e|
      invariant forall j :: 0 <= j < u ==> s[j] == Child(n, j)
      invariant forall j :: u <= j < 32 ==> s[j] == None
      decreases 32 - u
    {
      if u == 32 {
        ShrAll(n.bitmap);
      }
      ShrNext(n.bitmap, u);
      ChildOfBitmap(n.bitmap, e, u);
      CountMonotone(n.bitmap, u, 32);
      CountMonotone(n.bitmap, u + 1, 32);
      if Odd(bits) {
        s[u] := Some(e[o]);
        o := o + 1;
      }
      bits := Half(bits);
      u := u + 1;
    }
    forall j | u <= j < 32
      ensures Child(n, j) == None
    {
      ShrZero(n.bitmap, u, j);
      ChildOfBitmap(n.bitmap, e, j);
    }
    forall j | u <= j < 32
      ensures !Bit(n.bitmap, j)
    {
      ShrZero(n.bitmap, u, j);
    }
    CountAboveIsNone(n.bitmap, u, 32);
    s[slot] := Some(c);
    r := ArrayNode(o + 1, s[..]);
    assert r.slots == Expand(n, slot, c).slots;
  }

  /** The loop of `fe`: collect the occupied slots other than `skip`, with a mask that moves along. */
  method PackLoop<K, V>(slots: seq<Option<Node<K, V>>>, skip: nat) returns (r: Node<K, V>)
    requires |slots| == 32
    ensures r == Pack(slots, skip)
  {
    hide Or, Double;
    var bitmap: bv32, a: bv32 := 0, 1;
    var s: seq<Node<K, V>> := [];
    var u := 0;
    while u < |slots|
      invariant u <= 32
      invariant a == ShiftOne(u)
      invariant s == PackNodes(slots, skip, u) && bitmap == PackBits(slots, skip, u)
    {
      if slots[u].Some? && u != skip {
        bitmap := Or(bitmap, a);
        s := s + [slots[u].value];
      }
      u := u + 1;
      a := Double(a);
    }
    r := Bitmap(bitmap, s);
  }

  /** The loop of `ce`. */
  method CreateNodesLoop<K(==), V(==)>(entries: seq<(K, V)>, key: K, v: V, hash: K -> Hash) returns (n: Node<K, V>)
    ensures n == CreateNodes(entries, key, v, hash)
    ensures WellFormed(n, [], hash)
  {
    n := Leaf(hash(key), key, v);
    var o := 0;
    while o < |entries|
      invariant o <= |entries|
      invariant WellFormed(n, [], hash)
      invariant SetAll(n, entries[o..], hash) == CreateNodes(entries, key, v, hash)
    {
      var (k, x) := entries[o];
      UpdateKeepsShape(n, 0, k, Some(x), hash);
      UpdateLaw(n, 0, k, Some(x), hash, k);
      n := UpdateNode(n, 0, k, Some(x), hash).node.value;
      o := o + 1;
    }
  }
}
