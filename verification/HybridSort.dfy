/** The stable hybrid sort behind array sorting: insertion below eight elements, merging above. */
module HybridSort {
  type Compare<!T> = (T, T) -> int

  predicate Le<T>(cmp: Compare<T>, x: T, y: T) {
    cmp(x, y) <= 0
  }

  predicate Equivalent<T>(cmp: Compare<T>, x: T, y: T) {
    Le(cmp, x, y) && Le(cmp, y, x)
  }

  ghost predicate TotalPreorder<T(!new)>(cmp: Compare<T>) {
    && (forall x, y :: Le(cmp, x, y) || Le(cmp, y, x))
    && (forall x, y, z :: Le(cmp, x, y) && Le(cmp, y, z) ==> Le(cmp, x, z))
  }

  ghost predicate Sorted<T>(cmp: Compare<T>, s: seq<T>) {
    forall i, j :: 0 <= i < j < |s| ==> Le(cmp, s[i], s[j])
  }

  /** The elements equivalent to `x`, in their order. */
  function Class<T>(cmp: Compare<T>, s: seq<T>, x: T): seq<T> {
    if s == [] then []
    else Class(cmp, s[..|s| - 1], x) + (if Equivalent(cmp, x, s[|s| - 1]) then [s[|s| - 1]] else [])
  }

  ghost predicate SameClasses<T(!new)>(cmp: Compare<T>, s: seq<T>, r: seq<T>) {
    forall x :: Class(cmp, r, x) == Class(cmp, s, x)
  }

  /** What a stable sort of `s` is: in order, with equivalent elements as they came. */
  ghost predicate StableSort<T(!new)>(cmp: Compare<T>, s: seq<T>, r: seq<T>) {
    Sorted(cmp, r) && SameClasses(cmp, s, r)
  }

  /** What sorting makes of `s`: a permutation with any comparison function, the stable sort with a total preorder. */
  ghost predicate Sorts<T(!new)>(cmp: Compare<T>, s: seq<T>, r: seq<T>) {
    multiset(r) == multiset(s) && (TotalPreorder(cmp) ==> StableSort(cmp, s, r))
  }

  // ---- what the definition means

  lemma {:induction false} ClassSplit<T>(cmp: Compare<T>, a: seq<T>, b: seq<T>, x: T)
    ensures Class(cmp, a + b, x) == Class(cmp, a, x) + Class(cmp, b, x)
    decreases |b|
  {
    if b == [] {
      assert a + b == a;
    } else {
      var k := |b| - 1;
      assert (a + b)[..|a| + k] == a + b[..k];
      ClassSplit(cmp, a, b[..k], x);
    }
  }

  lemma {:induction false} ClassEmpty<T>(cmp: Compare<T>, s: seq<T>, x: T)
    requires forall i :: 0 <= i < |s| ==> !Equivalent(cmp, x, s[i])
    ensures Class(cmp, s, x) == []
  {
    if s != [] {
      ClassEmpty(cmp, s[..|s| - 1], x);
    }
  }

  lemma {:induction false} ClassHas<T>(cmp: Compare<T>, s: seq<T>, x: T, y: T)
    ensures y in Class(cmp, s, x) <==> y in s && Equivalent(cmp, x, y)
  {
    if s != [] {
      ClassHas(cmp, s[..|s| - 1], x, y);
      assert s == s[..|s| - 1] + [s[|s| - 1]];
    }
  }

  /** The class of an element keeps all its copies. */
  lemma {:induction false} ClassCounts<T>(cmp: Compare<T>, s: seq<T>, x: T)
    requires Equivalent(cmp, x, x)
    ensures multiset(Class(cmp, s, x))[x] == multiset(s)[x]
  {
    if s != [] {
      ClassCounts(cmp, s[..|s| - 1], x);
      assert s == s[..|s| - 1] + [s[|s| - 1]];
    }
  }

  /** A stable sort is a permutation. */
  lemma StableSortIsPermutation<T(!new)>(cmp: Compare<T>, s: seq<T>, r: seq<T>)
    requires TotalPreorder(cmp) && SameClasses(cmp, s, r)
    ensures multiset(r) == multiset(s) && |r| == |s|
  {
    forall x ensures multiset(r)[x] == multiset(s)[x] {
      ClassCounts(cmp, s, x);
      ClassCounts(cmp, r, x);
      assert Class(cmp, r, x) == Class(cmp, s, x);
    }
    assert multiset(r) == multiset(s);
    assert |multiset(r)| == |r| && |multiset(s)| == |s|;
  }

  /** In a sorted sequence the last element is last of its class. */
  lemma LastOfClass<T(!new)>(cmp: Compare<T>, s: seq<T>, r: seq<T>)
    requires TotalPreorder(cmp) && s != [] && r != []
    requires Sorted(cmp, s) && Sorted(cmp, r) && SameClasses(cmp, s, r)
    ensures s[|s| - 1] == r[|r| - 1]
  {
    var a, b := s[|s| - 1], r[|r| - 1];
    ClassHas(cmp, s, a, a);
    ClassHas(cmp, r, a, a);
    assert Class(cmp, r, a) == Class(cmp, s, a);
    ClassHas(cmp, r, b, b);
    ClassHas(cmp, s, b, b);
    assert Class(cmp, r, b) == Class(cmp, s, b);
    assert Equivalent(cmp, a, b) && Equivalent(cmp, a, a);
    assert Class(cmp, s, a)[|Class(cmp, s, a)| - 1] == a;
    assert Class(cmp, r, a)[|Class(cmp, r, a)| - 1] == b;
  }

  /** There is only one stable sort of a sequence. */
  lemma {:induction false} StableSortIsUnique<T(!new)>(cmp: Compare<T>, s: seq<T>, r: seq<T>)
    requires TotalPreorder(cmp)
    requires Sorted(cmp, s) && Sorted(cmp, r) && SameClasses(cmp, s, r)
    ensures s == r
    decreases |s|
  {
    StableSortIsPermutation(cmp, s, r);
    if s != [] {
      LastOfClass(cmp, s, r);
      var s', r' := s[..|s| - 1], r[..|r| - 1];
      forall x ensures Class(cmp, r', x) == Class(cmp, s', x) {
        assert Class(cmp, r, x) == Class(cmp, s, x);
        assert |Class(cmp, r', x)| == |Class(cmp, s', x)|;
        assert Class(cmp, r', x) == Class(cmp, r, x)[..|Class(cmp, r', x)|];
        assert Class(cmp, s', x) == Class(cmp, s, x)[..|Class(cmp, s', x)|];
      }
      StableSortIsUnique(cmp, s', r');
      assert s == s' + [s[|s| - 1]] && r == r' + [r[|r| - 1]];
    }
  }

  // ---- insertion

  lemma InsertKeepsClasses<T(!new)>(cmp: Compare<T>, s: seq<T>, p: seq<T>, n: nat, x: T)
    requires TotalPreorder(cmp) && SameClasses(cmp, s, p) && n <= |p|
    requires forall i :: n <= i < |p| ==> !Le(cmp, p[i], x)
    ensures SameClasses(cmp, s + [x], p[..n] + [x] + p[n..])
  {
    var r := p[..n] + [x] + p[n..];
    forall y ensures Class(cmp, r, y) == Class(cmp, s + [x], y) {
      ClassSplit(cmp, p[..n] + [x], p[n..], y);
      ClassSplit(cmp, p[..n], [x], y);
      ClassSplit(cmp, p[..n], p[n..], y);
      assert p == p[..n] + p[n..];
      ClassSplit(cmp, s, [x], y);
      assert Class(cmp, p, y) == Class(cmp, s, y);
      if Equivalent(cmp, y, x) {
        ClassEmpty(cmp, p[n..], y);
      } else {
        ClassEmpty(cmp, [x], y);
      }
    }
  }

  lemma InsertKeepsSorted<T(!new)>(cmp: Compare<T>, p: seq<T>, n: nat, x: T)
    requires TotalPreorder(cmp) && Sorted(cmp, p) && n <= |p|
    requires n > 0 ==> Le(cmp, p[n - 1], x)
    requires forall i :: n <= i < |p| ==> !Le(cmp, p[i], x)
    ensures Sorted(cmp, p[..n] + [x] + p[n..])
  {
    assert forall i :: 0 <= i < n ==> Le(cmp, p[i], p[n - 1]);
  }

  /** `x` put where all before are at most it, and all behind are above it. */
  lemma InsertKeepsStable<T(!new)>(cmp: Compare<T>, s: seq<T>, p: seq<T>, n: nat, x: T)
    requires TotalPreorder(cmp) && StableSort(cmp, s, p) && n <= |p|
    requires n > 0 ==> Le(cmp, p[n - 1], x)
    requires forall i :: n <= i < |p| ==> !Le(cmp, p[i], x)
    ensures StableSort(cmp, s + [x], p[..n] + [x] + p[n..])
  {
    hide Sorted, SameClasses;
    InsertKeepsClasses(cmp, s, p, n, x);
    InsertKeepsSorted(cmp, p, n, x);
  }

  /** The inner loop of the insertion sort: elements above `t[o]` move up by one, `t[o]` takes the free place. */
  method InsertNext<T(!new)>(t: array<T>, cmp: Compare<T>, o: nat) returns (ghost at: nat)
    requires o < t.Length
    modifies t
    ensures at <= o && t[at] == old(t[o])
    ensures forall i :: 0 <= i < at || o < i < t.Length ==> t[i] == old(t[i])
    ensures forall i :: at < i <= o ==> t[i] == old(t[i - 1])
    ensures at > 0 ==> Le(cmp, old(t[at - 1]), old(t[o]))
    ensures forall i :: at <= i < o ==> !Le(cmp, old(t[i]), old(t[o]))
  {
    var n, r := o, t[o];
    while n > 0 && cmp(t[n - 1], r) > 0
      invariant 0 <= n <= o
      invariant forall i :: 0 <= i < n || o < i < t.Length ==> t[i] == old(t[i])
      invariant n == o ==> t[n] == r
      invariant forall i :: n < i <= o ==> t[i] == old(t[i - 1])
      invariant forall i :: n <= i < o ==> !Le(cmp, old(t[i]), r)
    {
      n := n - 1;
      t[n + 1] := t[n];
    }
    if n != o {
      t[n] := r;
    }
    at := n;
  }

  lemma InsertSorts<T(!new)>(cmp: Compare<T>, s: seq<T>, p: seq<T>, n: nat, x: T)
    requires Sorts(cmp, s, p) && n <= |p|
    requires n > 0 ==> Le(cmp, p[n - 1], x)
    requires forall i :: n <= i < |p| ==> !Le(cmp, p[i], x)
    ensures Sorts(cmp, s + [x], p[..n] + [x] + p[n..])
  {
    hide TotalPreorder, StableSort, Le;
    assert p == p[..n] + p[n..];
    if TotalPreorder(cmp) {
      InsertKeepsStable(cmp, s, p, n, x);
    }
  }

  lemma OneIsSorted<T(!new)>(cmp: Compare<T>, s: seq<T>)
    requires |s| <= 1
    ensures Sorts(cmp, s, s)
  {
  }

  method InsertionSort<T(!new)>(t: array<T>, cmp: Compare<T>)
    modifies t
    ensures Sorts(cmp, old(t[..]), t[..])
  {
    hide Sorts, Le;
    ghost var s := t[..];
    var o := 1;
    OneIsSorted(cmp, s[..if t.Length > 0 then 1 else 0]);
    while o < t.Length
      invariant 1 <= o && (t.Length > 0 ==> o <= t.Length)
      invariant t.Length > 0 ==> Sorts(cmp, s[..o], t[..o])
      invariant forall i :: o <= i < t.Length ==> t[i] == s[i]
    {
      ghost var p := t[..o];
      ghost var at := InsertNext(t, cmp, o);
      assert t[..o + 1] == p[..at] + [s[o]] + p[at..];
      InsertSorts(cmp, s[..o], p, at, s[o]);
      assert s[..o + 1] == s[..o] + [s[o]];
      o := o + 1;
    }
    assert t.Length > 0 ==> t[..] == t[..o] && s == s[..o];
  }

  // ---- merging

  /** What the merging loop has written: `e[..i]` and `r[..j]`, in order, ties from `e` first. */
  ghost predicate Merged<T(!new)>(cmp: Compare<T>, e: seq<T>, r: seq<T>, i: nat, j: nat, w: seq<T>)
    requires i <= |e| && j <= |r|
  {
    && StableSort(cmp, e[..i] + r[..j], w)
    && (forall k, l {:trigger w[k], e[l]} :: 0 <= k < |w| && i <= l < |e| ==> Le(cmp, w[k], e[l]))
    && (forall k, l {:trigger w[k], r[l]} :: 0 <= k < |w| && j <= l < |r| ==> Le(cmp, w[k], r[l]))
    && (forall k, l {:trigger r[k], e[l]} :: 0 <= k < j && i <= l < |e| ==> !Le(cmp, e[l], r[k]))
  }

  lemma TakeLeftClasses<T(!new)>(cmp: Compare<T>, e: seq<T>, r: seq<T>, i: nat, j: nat, w: seq<T>)
    requires i < |e| && j <= |r| && SameClasses(cmp, e[..i] + r[..j], w)
    requires TotalPreorder(cmp) && forall k :: 0 <= k < j ==> !Le(cmp, e[i], r[k])
    ensures SameClasses(cmp, e[..i + 1] + r[..j], w + [e[i]])
  {
    var x := e[i];
    forall y ensures Class(cmp, w + [x], y) == Class(cmp, e[..i + 1] + r[..j], y) {
      assert Class(cmp, w, y) == Class(cmp, e[..i] + r[..j], y);
      ClassSplit(cmp, e[..i], r[..j], y);
      ClassSplit(cmp, e[..i + 1], r[..j], y);
      assert e[..i + 1] == e[..i] + [x];
      ClassSplit(cmp, e[..i], [x], y);
      ClassSplit(cmp, w, [x], y);
      if Equivalent(cmp, y, x) {
        ClassEmpty(cmp, r[..j], y);
      } else {
        ClassEmpty(cmp, [x], y);
      }
    }
  }

  lemma TakeLeft<T(!new)>(cmp: Compare<T>, e: seq<T>, r: seq<T>, i: nat, j: nat, w: seq<T>)
    requires TotalPreorder(cmp) && Sorted(cmp, e) && Sorted(cmp, r)
    requires i < |e| && j <= |r| && Merged(cmp, e, r, i, j, w)
    requires j < |r| ==> Le(cmp, e[i], r[j])
    ensures Merged(cmp, e, r, i + 1, j, w + [e[i]])
  {
    TakeLeftClasses(cmp, e, r, i, j, w);
    assert forall l :: j <= l < |r| ==> Le(cmp, r[j], r[l]);
  }

  lemma TakeRight<T(!new)>(cmp: Compare<T>, e: seq<T>, r: seq<T>, i: nat, j: nat, w: seq<T>)
    requires TotalPreorder(cmp) && Sorted(cmp, e) && Sorted(cmp, r)
    requires i <= |e| && j < |r| && Merged(cmp, e, r, i, j, w)
    requires i < |e| ==> !Le(cmp, e[i], r[j])
    ensures Merged(cmp, e, r, i, j + 1, w + [r[j]])
  {
    var x := r[j];
    forall y ensures Class(cmp, w + [x], y) == Class(cmp, e[..i] + r[..j + 1], y) {
      assert Class(cmp, w, y) == Class(cmp, e[..i] + r[..j], y);
      assert e[..i] + r[..j + 1] == e[..i] + r[..j] + [x];
      ClassSplit(cmp, e[..i] + r[..j], [x], y);
      ClassSplit(cmp, w, [x], y);
    }
    assert forall l :: i <= l < |e| ==> Le(cmp, e[i], e[l]);
  }

  /** The two halves sorted apart are as good as the whole for what equivalent elements see. */
  lemma HalvesAreWhole<T(!new)>(cmp: Compare<T>, s: seq<T>, a: nat, e: seq<T>, r: seq<T>, w: seq<T>)
    requires a <= |s| && StableSort(cmp, s[..a], e) && StableSort(cmp, s[a..], r)
    requires StableSort(cmp, e + r, w)
    ensures StableSort(cmp, s, w)
  {
    hide Sorted, Class;
    assert s == s[..a] + s[a..];
    forall y ensures Class(cmp, w, y) == Class(cmp, s, y) {
      HalvesSeen(cmp, s, a, e, r, w, y);
    }
  }

  lemma HalvesSeen<T(!new)>(cmp: Compare<T>, s: seq<T>, a: nat, e: seq<T>, r: seq<T>, w: seq<T>, y: T)
    requires a <= |s| && SameClasses(cmp, s[..a], e) && SameClasses(cmp, s[a..], r) && SameClasses(cmp, e + r, w)
    ensures Class(cmp, w, y) == Class(cmp, s, y)
  {
    hide Class;
    assert Class(cmp, w, y) == Class(cmp, e + r, y);
    assert Class(cmp, e, y) == Class(cmp, s[..a], y);
    assert Class(cmp, r, y) == Class(cmp, s[a..], y);
    ClassSplit(cmp, e, r, y);
    ClassSplit(cmp, s[..a], s[a..], y);
    assert s == s[..a] + s[a..];
  }

  /** What the merging loop has written, whether or not the halves are in order. */
  ghost predicate Merging<T(!new)>(cmp: Compare<T>, e: seq<T>, r: seq<T>, i: nat, j: nat, w: seq<T>)
    requires i <= |e| && j <= |r|
  {
    && multiset(w) == multiset(e[..i] + r[..j])
    && (TotalPreorder(cmp) && Sorted(cmp, e) && Sorted(cmp, r) ==> Merged(cmp, e, r, i, j, w))
  }

  lemma MergingNothing<T(!new)>(cmp: Compare<T>, e: seq<T>, r: seq<T>)
    ensures Merging(cmp, e, r, 0, 0, [])
  {
    assert e[..0] + r[..0] == [];
  }

  lemma MergingLeft<T(!new)>(cmp: Compare<T>, e: seq<T>, r: seq<T>, i: nat, j: nat, w: seq<T>)
    requires i < |e| && j <= |r| && Merging(cmp, e, r, i, j, w)
    requires j < |r| ==> Le(cmp, e[i], r[j])
    ensures Merging(cmp, e, r, i + 1, j, w + [e[i]])
  {
    hide TotalPreorder, Sorted, Merged, Le;
    assert e[..i + 1] == e[..i] + [e[i]];
    if TotalPreorder(cmp) && Sorted(cmp, e) && Sorted(cmp, r) {
      TakeLeft(cmp, e, r, i, j, w);
    }
  }

  lemma MergingRight<T(!new)>(cmp: Compare<T>, e: seq<T>, r: seq<T>, i: nat, j: nat, w: seq<T>)
    requires i <= |e| && j < |r| && Merging(cmp, e, r, i, j, w)
    requires i < |e| ==> !Le(cmp, e[i], r[j])
    ensures Merging(cmp, e, r, i, j + 1, w + [r[j]])
  {
    hide TotalPreorder, Sorted, Merged, Le;
    assert r[..j + 1] == r[..j] + [r[j]];
    if TotalPreorder(cmp) && Sorted(cmp, e) && Sorted(cmp, r) {
      TakeRight(cmp, e, r, i, j, w);
    }
  }

  lemma MergingAll<T(!new)>(cmp: Compare<T>, e: seq<T>, r: seq<T>, w: seq<T>)
    requires Merging(cmp, e, r, |e|, |r|, w)
    ensures multiset(w) == multiset(e + r)
    ensures TotalPreorder(cmp) && Sorted(cmp, e) && Sorted(cmp, r) ==> StableSort(cmp, e + r, w)
  {
    hide TotalPreorder, Sorted, StableSort;
    assert e[..|e|] == e && r[..|r|] == r;
  }

  /** The elements of both halves; if these are in order, the stable sort of one after the other. */
  method Merge<T(!new)>(t: array<T>, e: array<T>, r: array<T>, cmp: Compare<T>)
    requires t.Length == e.Length + r.Length && t != e && t != r
    modifies t
    ensures multiset(t[..]) == multiset(e[..] + r[..])
    ensures TotalPreorder(cmp) && Sorted(cmp, e[..]) && Sorted(cmp, r[..]) ==> StableSort(cmp, e[..] + r[..], t[..])
  {
    hide TotalPreorder, Sorted, StableSort, Merging;
    ghost var es, rs := e[..], r[..];
    var s, u := 0, 0;
    MergingNothing(cmp, es, rs);
    while s < e.Length || u < r.Length
      invariant s <= e.Length && u <= r.Length
      invariant Merging(cmp, es, rs, s, u, t[..s + u])
      decreases e.Length + r.Length - s - u
    {
      ghost var w := t[..s + u];
      if s < e.Length && u < r.Length {
        if cmp(e[s], r[u]) <= 0 {
          MergingLeft(cmp, es, rs, s, u, w);
          t[s + u] := e[s];
          s := s + 1;
        } else {
          MergingRight(cmp, es, rs, s, u, w);
          t[s + u] := r[u];
          u := u + 1;
        }
      } else if s < e.Length {
        MergingLeft(cmp, es, rs, s, u, w);
        t[s + u] := e[s];
        s := s + 1;
      } else {
        MergingRight(cmp, es, rs, s, u, w);
        t[s + u] := r[u];
        u := u + 1;
      }
      assert t[..s + u] == w + [t[s + u - 1]];
    }
    assert t[..s + u] == t[..];
    MergingAll(cmp, es, rs, t[..]);
  }

  /** A copy of `t[lo..hi]`. */
  method Slice<T>(t: array<T>, lo: nat, hi: nat) returns (c: array<T>)
    requires lo <= hi <= t.Length
    ensures fresh(c) && c[..] == t[lo..hi]
  {
    c := new T[hi - lo](i requires 0 <= i < hi - lo reads t => t[lo + i]);
  }

  lemma HalvesSort<T(!new)>(cmp: Compare<T>, s: seq<T>, a: nat, e: seq<T>, r: seq<T>, w: seq<T>)
    requires a <= |s| && Sorts(cmp, s[..a], e) && Sorts(cmp, s[a..], r)
    requires multiset(w) == multiset(e + r)
    requires TotalPreorder(cmp) && Sorted(cmp, e) && Sorted(cmp, r) ==> StableSort(cmp, e + r, w)
    ensures Sorts(cmp, s, w)
  {
    hide TotalPreorder, Sorted, SameClasses;
    assert s == s[..a] + s[a..];
    if TotalPreorder(cmp) {
      HalvesAreWhole(cmp, s, a, e, r, w);
    }
  }

  method Sort<T(!new)>(t: array<T>, cmp: Compare<T>)
    modifies t
    ensures Sorts(cmp, old(t[..]), t[..])
    decreases t.Length
  {
    hide Sorts, TotalPreorder, StableSort, Sorted;
    var a := t.Length / 2;
    if t.Length < 8 {
      InsertionSort(t, cmp);
    } else {
      var e := Slice(t, 0, a);
      var r := Slice(t, a, t.Length);
      ghost var s := t[..];
      assert s[..a] == e[..] && s[a..] == r[..];
      Sort(e, cmp);
      Sort(r, cmp);
      Merge(t, e, r, cmp);
      HalvesSort(cmp, s, a, e[..], r[..], t[..]);
    }
  }
}
