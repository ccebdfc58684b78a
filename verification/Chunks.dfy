/** Sequences cut into pieces. */
module Chunks {
  /** The pieces put together. */
  function Flatten<T>(pieces: seq<seq<T>>): seq<T> {
    if pieces == [] then [] else pieces[0] + Flatten(pieces[1..])
  }

  lemma {:induction false} FlattenSplit<T>(a: seq<seq<T>>, b: seq<seq<T>>)
    ensures Flatten(a + b) == Flatten(a) + Flatten(b)
    decreases |a|
  {
    if a == [] {
      assert a + b == b;
    } else {
      FlattenSplit(a[1..], b);
      assert (a + b)[1..] == a[1..] + b;
    }
  }

  /** One more piece. */
  lemma FlattenPrefix<T>(ps: seq<seq<T>>, k: nat)
    requires k < |ps|
    ensures Flatten(ps[..k + 1]) == Flatten(ps[..k]) + ps[k]
    ensures k == 0 ==> Flatten(ps[..1]) == ps[0]
  {
    assert ps[..k + 1] == ps[..k] + [ps[k]];
    FlattenSplit(ps[..k], [ps[k]]);
    assert Flatten([ps[k]]) == ps[k] + Flatten([ps[k]][1..]);
  }

  lemma FlattenTwo<T>(a: seq<T>, b: seq<T>)
    ensures Flatten([a, b]) == a + b
  {
    FlattenPrefix([a, b], 0);
    FlattenPrefix([a, b], 1);
    assert [a, b][..1] == [a] && [a, b][..2] == [a, b];
  }
}
