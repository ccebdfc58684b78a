/** The linked list of buffers (or strings) that hands out prefixes of what it holds. */
module BufferList {
  import opened Chunks
  import opened Options

  class Node<T> {
    var data: seq<T>
    var next: Node?<T>

    constructor (data: seq<T>, next: Node?<T>)
      ensures this.data == data && this.next == next
    {
      this.data, this.next := data, next;
    }
  }

  class BufferList<T(0)> {
    var head: Node?<T>
    var tail: Node?<T>
    var length: int
    /** The nodes from head to tail. */
    ghost var nodes: seq<Node<T>>

    ghost predicate Valid()
      reads this, nodes
    {
      && length == |nodes|
      && (nodes == [] ==> head == null && tail == null)
      && (nodes != [] ==> head == nodes[0] && tail == nodes[|nodes| - 1] && tail.next == null)
      && (forall i {:trigger nodes[i].next} :: 0 <= i < |nodes| - 1 ==> nodes[i].next == nodes[i + 1])
      && (forall i, j :: 0 <= i < j < |nodes| ==> nodes[i] != nodes[j])
    }

    /** The pieces, in order. */
    ghost function Pieces(): seq<seq<T>>
      reads this, nodes
    {
      seq(|nodes|, i requires 0 <= i < |nodes| reads this, nodes => nodes[i].data)
    }

    lemma PieceAt(k: nat)
      requires k < |nodes|
      ensures |Pieces()| == |nodes| && Pieces()[k] == nodes[k].data
    {
    }

    ghost function Contents(): seq<T>
      reads this, nodes
    {
      Flatten(Pieces())
    }

    constructor ()
      ensures Valid() && Pieces() == []
    {
      head, tail, length, nodes := null, null, 0, [];
    }

    method Push(t: seq<T>)
      requires Valid()
      modifies this, nodes
      ensures Valid() && Pieces() == old(Pieces()) + [t]
      ensures fresh(set n | n in nodes && n !in old(nodes))
    {
      var e := new Node(t, null);
      if length > 0 {
        tail.next := e;
      } else {
        head := e;
      }
      tail := e;
      length := length + 1;
      nodes := nodes + [e];
    }

    method Unshift(t: seq<T>)
      requires Valid()
      modifies this
      ensures Valid() && Pieces() == [t] + old(Pieces())
    {
      var e := new Node(t, head);
      if length == 0 {
        tail := e;
      }
      head := e;
      length := length + 1;
      nodes := [e] + nodes;
    }

    method Shift() returns (t: Option<seq<T>>)
      requires Valid()
      modifies this
      ensures Valid()
      ensures if old(Pieces()) == [] then t == None && Pieces() == []
              else t == Some(old(Pieces())[0]) && Pieces() == old(Pieces())[1..]
    {
      if length == 0 {
        return None;
      }
      t := Some(head.data);
      if length == 1 {
        head, tail := null, null;
      } else {
        head := head.next;
      }
      length := length - 1;
      nodes := nodes[1..];
    }

    method Clear()
      modifies this
      ensures Valid() && Pieces() == []
    {
      head, tail, length, nodes := null, null, 0, [];
    }

    /** The end of a collecting loop: the first `o` elements of node `k` are taken as well. */
    method Relink(r: Node<T>, c: int, o: nat, ghost k: nat)
      requires Valid() && k < |nodes| && r == nodes[k] && c == k && o <= |r.data|
      modifies this, nodes[k]
      ensures Valid()
      ensures Pieces() == (if o == |old(Pieces())[k]| then [] else [old(Pieces())[k][o..]]) + old(Pieces())[k + 1..]
    {
      ghost var all, ps := nodes, Pieces();
      assert r.next == all[k].next;
      if o == |r.data| {
        head := r.next;
        if r.next == null {
          tail := null;
        }
        nodes := all[k + 1..];
        length := length - (c + 1);
        assert forall i :: 0 <= i < |nodes| ==> nodes[i] == all[k + 1 + i];
        assert Pieces() == ps[k + 1..];
      } else {
        head := r;
        r.data := r.data[o..];
        nodes := all[k..];
        length := length - c;
        assert forall i :: 0 <= i < |nodes| ==> nodes[i] == all[k + i];
        assert Pieces() == [ps[k][o..]] + ps[k + 1..];
      }
    }

    /** Whether the first `o` elements of node `c` are the last of `n`, or all nodes together have fewer. */
    ghost predicate Ends(n: nat, c: nat, o: nat, t: nat)
      reads this, nodes
    {
      && 1 <= c <= |nodes|
      && (t == 0 ==> c < |nodes| && o <= |nodes[c].data| && n == |Flatten(Pieces()[..c])| + o)
      && (t > 0 ==> c == |nodes| && n == |Contents()| + t)
    }

    ghost function Collected(c: nat, o: nat, t: nat): seq<T>
      requires c <= |nodes| && (t == 0 ==> c < |nodes| && o <= |nodes[c].data|)
      reads this, nodes
    {
      Flatten(Pieces()[..c]) + (if t == 0 then nodes[c].data[..o] else [])
    }

    /** The loop of `_getBuffer`, up to its `break`. */
    method CollectBuffer(n: nat, e: array<T>) returns (r: Node<T>, c: nat, o: nat, t: nat)
      requires Valid() && nodes != [] && n > |nodes[0].data| && e.Length == n
      modifies e
      ensures Ends(n, c, o, t) && e[..n - t] == Collected(c, o, t)
      ensures t == 0 ==> r == nodes[c]
    {
      hide Pieces, Flatten;
      ghost var ps := Pieces();
      PieceAt(0);
      r, c, o, t := head, 1, 0, n;
      CopyInto(r.data, 0, |r.data|, e, 0);
      t := t - |r.data|;
      FlattenPrefix(ps, 0);
      while r.next != null
        invariant 1 <= c <= |nodes| && r == nodes[c - 1]
        invariant 0 < t <= n == |Flatten(ps[..c])| + t
        invariant e[..n - t] == Flatten(ps[..c])
        decreases |nodes| - c
      {
        r := r.next;
        PieceAt(c);
        var i := r.data;
        o := if t > |i| then |i| else t;
        ghost var front := e[..n - t];
        CopyInto(i, 0, o, e, n - t);
        assert e[..n - t + o] == front + ps[c][..o];
        t := t - o;
        if t == 0 {
          return;
        }
        FlattenPrefix(ps, c);
        c := c + 1;
      }
      assert r.next == nodes[c - 1].next;
      assert ps[..c] == ps;
    }

    /** The loop of `_getString`, up to its `break`. */
    method CollectString(n: nat) returns (e: seq<T>, r: Node<T>, c: nat, o: nat, t: nat)
      requires Valid() && nodes != [] && n > |nodes[0].data|
      ensures Ends(n, c, o, t) && e == Collected(c, o, t)
      ensures t == 0 ==> r == nodes[c]
    {
      hide Pieces, Flatten;
      ghost var ps := Pieces();
      PieceAt(0);
      r, c, o, t := head, 1, 0, n;
      e := r.data;
      t := t - |r.data|;
      FlattenPrefix(ps, 0);
      while r.next != null
        invariant 1 <= c <= |nodes| && r == nodes[c - 1]
        invariant 0 < t <= n == |Flatten(ps[..c])| + t
        invariant e == Flatten(ps[..c])
        decreases |nodes| - c
      {
        r := r.next;
        PieceAt(c);
        var i := r.data;
        o := if t > |i| then |i| else t;
        e := e + (if o == |i| then i else i[..t]);
        t := t - o;
        if t == 0 {
          return;
        }
        FlattenPrefix(ps, c);
        c := c + 1;
      }
      assert r.next == nodes[c - 1].next;
      assert ps[..c] == ps;
    }

    /** What both collecting loops do to the list. If it held too little, it is left with a length of zero
        and its old head. */
    method Settle(n: nat, r: Node<T>, c: nat, o: nat, t: nat)
      requires Valid() && Ends(n, c, o, t) && (t == 0 ==> r == nodes[c])
      modifies this, nodes
      ensures t == 0 ==> n <= |old(Contents())| && old(Collected(c, o, t)) == old(Contents())[..n]
      ensures t == 0 ==> Valid() && Contents() == old(Contents())[n..]
      ensures t > 0 ==> n > |old(Contents())| && old(Collected(c, o, t)) == old(Contents())
      ensures t > 0 ==> !Valid() && length == 0 && head == old(head) && head != null
    {
      if t == 0 {
        CutPieces(Pieces(), c, o);
        Relink(r, c, o, c);
      } else {
        assert Pieces()[..c] == Pieces();
        length := length - c;
      }
    }

    /** `consume`: the first `n` elements of a list that is not empty. */
    method Consume(n: nat, hasStrings: bool) returns (x: seq<T>)
      requires Valid() && nodes != []
      modifies this, nodes
      ensures Valid() <==> n <= |old(Contents())|
      ensures n <= |old(Contents())| ==> x == old(Contents())[..n] && Contents() == old(Contents())[n..]
      ensures n > |old(Contents())| ==> length == 0 && head == old(head) != null && old(Contents()) <= x
      ensures n > |old(Contents())| ==> |x| == if hasStrings then |old(Contents())| else n
    {
      hide Flatten;
      ghost var ps := Pieces();
      if n <= |head.data| {
        CutPieces(ps, 0, n);
      }
      if n < |head.data| {
        x := head.data[..n];
        head.data := head.data[n..];
        assert Pieces() == [ps[0][n..]] + ps[1..];
      } else if n == |head.data| {
        var s := Shift();
        x := s.value;
        assert Pieces() == [] + ps[1..];
      } else if hasStrings {
        var r, c, o, t;
        x, r, c, o, t := CollectString(n);
        Settle(n, r, c, o, t);
      } else {
        var e := new T[n];
        var r, c, o, t := CollectBuffer(n, e);
        x := e[..];
        assert x[..n - t] == e[..n - t];
        Settle(n, r, c, o, t);
      }
    }
  }

  /** What is left when the pieces before `k` and the first `o` elements of piece `k` are gone. */
  lemma CutPieces<T>(ps: seq<seq<T>>, k: nat, o: nat)
    requires k < |ps| && o <= |ps[k]|
    ensures var n := |Flatten(ps[..k])| + o;
            && n <= |Flatten(ps)|
            && Flatten(ps)[..n] == Flatten(ps[..k]) + ps[k][..o]
            && (k == 0 ==> Flatten(ps[..k]) == [])
            && Flatten((if o == |ps[k]| then [] else [ps[k][o..]]) + ps[k + 1..]) == Flatten(ps)[n..]
  {
    assert ps == ps[..k] + [ps[k]] + ps[k + 1..];
    FlattenSplit(ps[..k] + [ps[k]], ps[k + 1..]);
    FlattenPrefix(ps, k);
    assert ps[..k + 1] == ps[..k] + [ps[k]];
    var rest := Flatten(ps[k + 1..]);
    assert Flatten(ps) == Flatten(ps[..k]) + ps[k] + rest;
    if o < |ps[k]| {
      assert ([ps[k][o..]] + ps[k + 1..])[1..] == ps[k + 1..];
    } else {
      assert [] + ps[k + 1..] == ps[k + 1..];
    }
  }

  method CopyInto<T>(from: seq<T>, start: nat, end: nat, to: array<T>, at: nat)
    requires start <= end <= |from| && at + (end - start) <= to.Length
    modifies to
    ensures to[..at + (end - start)] == old(to[..at]) + from[start..end]
    ensures to[at + (end - start)..] == old(to[at + (end - start)..])
  {
    var j := start;
    while j < end
      invariant start <= j <= end
      invariant forall k :: 0 <= k < at || at + (j - start) <= k < to.Length ==> to[k] == old(to[k])
      invariant forall k :: start <= k < j ==> to[at + (k - start)] == from[k]
    {
      to[at + (j - start)] := from[j];
      j := j + 1;
    }
  }
}
