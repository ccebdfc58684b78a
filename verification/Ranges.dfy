/** Discontinuous ranges of integers: an ordered list of closed ranges, with set operations on it. */
module Ranges {
  import opened Options

  /** One closed range. Ranges are replaced, never changed. */
  datatype SubRange = SubRange(low: int, high: int) {
    function Length(): int {
      1 + high - low
    }

    predicate Overlaps(t: SubRange) {
      !(high < t.low || low > t.high)
    }

    predicate Touches(t: SubRange) {
      !(high + 1 < t.low || low - 1 > t.high)
    }

    function Add(t: SubRange): SubRange {
      SubRange(if low < t.low then low else t.low, if high > t.high then high else t.high)
    }

    function Subtract(t: SubRange): seq<SubRange> {
      if t.low <= low && t.high >= high then []
      else if t.low > low && t.high < high then [SubRange(low, t.low - 1), SubRange(t.high + 1, high)]
      else if t.low <= low then [SubRange(t.high + 1, high)]
      else [SubRange(low, t.low - 1)]
    }

    function Meet(t: SubRange): SubRange {
      SubRange(if low > t.low then low else t.low, if high < t.high then high else t.high)
    }

    predicate Has(x: int) {
      low <= x <= high
    }

    predicate Valid() {
      low <= high
    }
  }

  // ---- what a list of ranges means

  ghost predicate Holds(rs: seq<SubRange>, x: int) {
    exists i :: 0 <= i < |rs| && rs[i].Has(x)
  }

  ghost predicate AllValid(rs: seq<SubRange>) {
    forall i :: 0 <= i < |rs| ==> rs[i].Valid()
  }

  /** Sorted, disjoint and with a gap between any two. */
  ghost predicate NormalForm(rs: seq<SubRange>) {
    && AllValid(rs)
    && forall i, j :: 0 <= i < j < |rs| ==> rs[i].high + 1 < rs[j].low
  }

  lemma HoldsSplit(a: seq<SubRange>, b: seq<SubRange>, x: int)
    ensures Holds(a + b, x) <==> Holds(a, x) || Holds(b, x)
  {
    if Holds(a, x) {
      var i :| 0 <= i < |a| && a[i].Has(x);
      assert (a + b)[i].Has(x);
    }
    if Holds(b, x) {
      var i :| 0 <= i < |b| && b[i].Has(x);
      assert (a + b)[|a| + i].Has(x);
    }
  }

  lemma HoldsFirst(rs: seq<SubRange>, x: int)
    requires rs != []
    ensures Holds(rs, x) <==> rs[0].Has(x) || Holds(rs[1..], x)
  {
    HoldsSplit([rs[0]], rs[1..], x);
    assert rs == [rs[0]] + rs[1..];
    assert rs[0].Has(x) ==> [rs[0]][0].Has(x);
  }

  lemma NormalFormSplit(a: seq<SubRange>, b: seq<SubRange>)
    requires NormalForm(a) && NormalForm(b)
    requires forall i, j :: 0 <= i < |a| && 0 <= j < |b| ==> a[i].high + 1 < b[j].low
    ensures NormalForm(a + b)
  {
  }

  // ---- the three operations, one range at a time

  function AddRange(rs: seq<SubRange>, t: SubRange): seq<SubRange> {
    if rs == [] then [t]
    else if t.Touches(rs[0]) then Absorb(rs, t)
    else [rs[0]] + AddRange(rs[1..], t)
  }

  function Absorb(rs: seq<SubRange>, t: SubRange): seq<SubRange> {
    if rs != [] && t.Touches(rs[0]) then Absorb(rs[1..], t.Add(rs[0])) else [t] + rs
  }

  function SubtractRange(rs: seq<SubRange>, t: SubRange): seq<SubRange> {
    if rs == [] then []
    else if t.Overlaps(rs[0]) then Cut(rs, t)
    else [rs[0]] + SubtractRange(rs[1..], t)
  }

  function Cut(rs: seq<SubRange>, t: SubRange): seq<SubRange> {
    if rs != [] && t.Overlaps(rs[0]) then rs[0].Subtract(t) + Cut(rs[1..], t) else rs
  }

  function IntersectRange(rs: seq<SubRange>, t: SubRange): seq<SubRange> {
    if rs == [] then []
    else if t.Overlaps(rs[0]) then Common(rs, t)
    else IntersectRange(rs[1..], t)
  }

  function Common(rs: seq<SubRange>, t: SubRange): seq<SubRange> {
    if rs != [] && t.Overlaps(rs[0]) then [rs[0].Meet(t)] + Common(rs[1..], t) else []
  }

  // ---- adding

  lemma {:induction false} AbsorbIsUnion(rs: seq<SubRange>, t: SubRange, x: int)
    requires AllValid(rs) && t.Valid()
    ensures Holds(Absorb(rs, t), x) <==> Holds(rs, x) || t.Has(x)
    decreases |rs|
  {
    if rs != [] && t.Touches(rs[0]) {
      AbsorbIsUnion(rs[1..], t.Add(rs[0]), x);
      HoldsFirst(rs, x);
    } else {
      HoldsFirst([t] + rs, x);
    }
  }

  /** Adding is union, on any list of ranges. */
  lemma {:induction false} AddIsUnion(rs: seq<SubRange>, t: SubRange, x: int)
    requires AllValid(rs) && t.Valid()
    ensures Holds(AddRange(rs, t), x) <==> Holds(rs, x) || t.Has(x)
    decreases |rs|
  {
    if rs == [] {
      HoldsFirst([t], x);
    } else if t.Touches(rs[0]) {
      AbsorbIsUnion(rs, t, x);
    } else {
      AddIsUnion(rs[1..], t, x);
      HoldsFirst(rs, x);
      HoldsFirst([rs[0]] + AddRange(rs[1..], t), x);
    }
  }

  lemma {:induction false} AddKeepsValid(rs: seq<SubRange>, t: SubRange)
    requires AllValid(rs) && t.Valid()
    ensures AllValid(AddRange(rs, t)) && AllValid(Absorb(rs, t))
    decreases |rs|
  {
    if rs != [] {
      AddKeepsValid(rs[1..], t);
      AddKeepsValid(rs[1..], t.Add(rs[0]));
    }
  }

  lemma {:induction false} AbsorbKeepsForm(rs: seq<SubRange>, t: SubRange)
    requires NormalForm(rs) && t.Valid() && (rs != [] ==> t.low - 1 <= rs[0].high)
    ensures NormalForm(Absorb(rs, t))
    ensures forall i :: 0 <= i < |Absorb(rs, t)| ==>
              Absorb(rs, t)[i].low >= t.low || (rs != [] && Absorb(rs, t)[i].low >= rs[0].low)
    decreases |rs|
  {
    if rs != [] && t.Touches(rs[0]) {
      AbsorbKeepsForm(rs[1..], t.Add(rs[0]));
    } else {
      NormalFormSplit([t], rs);
    }
  }

  ghost predicate TouchesSome(rs: seq<SubRange>, t: SubRange) {
    exists i :: 0 <= i < |rs| && t.Touches(rs[i])
  }

  ghost predicate AboveAll(rs: seq<SubRange>, t: SubRange) {
    forall i :: 0 <= i < |rs| ==> rs[i].high + 1 < t.low
  }

  /** Where the new range touches none, it goes to the end of the list. */
  lemma {:induction false} AddApart(rs: seq<SubRange>, t: SubRange)
    requires !TouchesSome(rs, t)
    ensures AddRange(rs, t) == rs + [t]
    decreases |rs|
  {
    if rs != [] {
      assert !t.Touches(rs[0]);
      AddApart(rs[1..], t);
      assert rs == [rs[0]] + rs[1..];
    }
  }

  lemma {:induction false} AddTouchingKeepsForm(rs: seq<SubRange>, t: SubRange)
    requires NormalForm(rs) && t.Valid() && TouchesSome(rs, t)
    ensures NormalForm(AddRange(rs, t))
    ensures forall i :: 0 <= i < |AddRange(rs, t)| ==>
              AddRange(rs, t)[i].low >= t.low || AddRange(rs, t)[i].low >= rs[0].low
    decreases |rs|
  {
    if t.Touches(rs[0]) {
      AbsorbKeepsForm(rs, t);
    } else {
      var i :| 0 <= i < |rs| && t.Touches(rs[i]);
      assert t.Touches(rs[1..][i - 1]);
      AddTouchingKeepsForm(rs[1..], t);
      assert rs[0].high + 1 < t.low;
      NormalFormSplit([rs[0]], AddRange(rs[1..], t));
    }
  }

  /** Adding keeps the normal form exactly when the new range touches one that is there or lies above all. */
  lemma AddKeepsForm(rs: seq<SubRange>, t: SubRange)
    requires NormalForm(rs) && t.Valid()
    ensures NormalForm(AddRange(rs, t)) <==> TouchesSome(rs, t) || AboveAll(rs, t)
  {
    if TouchesSome(rs, t) {
      AddTouchingKeepsForm(rs, t);
    } else {
      AddApart(rs, t);
      if AboveAll(rs, t) {
        NormalFormSplit(rs, [t]);
      } else {
        var i :| 0 <= i < |rs| && !(rs[i].high + 1 < t.low);
        assert (rs + [t])[i] == rs[i] && (rs + [t])[|rs|] == t;
      }
    }
  }

  /** Two numbers added from above, then one more on top: the list is out of order, and removing them all leaves one. */
  lemma AddBelowBreaksForm()
    ensures var rs := AddRange(AddRange(AddRange([], SubRange(10, 10)), SubRange(1, 1)), SubRange(20, 20));
            !NormalForm(rs) && Holds(SubtractRange(rs, SubRange(10, 20)), 20)
  {
    var rs := AddRange(AddRange(AddRange([], SubRange(10, 10)), SubRange(1, 1)), SubRange(20, 20));
    assert AddRange([SubRange(1, 1)], SubRange(20, 20)) == [SubRange(1, 1), SubRange(20, 20)];
    assert rs == [SubRange(10, 10), SubRange(1, 1), SubRange(20, 20)];
    assert rs[0].high + 1 > rs[1].low;
    var left := SubtractRange(rs, SubRange(10, 20));
    assert left == [SubRange(1, 1), SubRange(20, 20)];
    assert left[1].Has(20);
  }

  // ---- subtracting

  lemma SubtractOne(r: SubRange, t: SubRange, x: int)
    requires r.Valid() && t.Valid() && t.Overlaps(r)
    ensures Holds(r.Subtract(t), x) <==> r.Has(x) && !t.Has(x)
    ensures NormalForm(r.Subtract(t))
    ensures forall i :: 0 <= i < |r.Subtract(t)| ==> r.low <= r.Subtract(t)[i].low && r.Subtract(t)[i].high <= r.high
  {
    var d := r.Subtract(t);
    if |d| == 2 {
      assert d[0].Has(x) || d[1].Has(x) <==> r.Has(x) && !t.Has(x);
    } else if |d| == 1 {
      assert d[0].Has(x) <==> r.Has(x) && !t.Has(x);
    }
  }

  /** The ranges that overlap `t` stand next to each other. */
  ghost predicate Contiguous(rs: seq<SubRange>, t: SubRange) {
    forall i, j, k :: 0 <= i < j < k < |rs| && t.Overlaps(rs[i]) && t.Overlaps(rs[k]) ==> t.Overlaps(rs[j])
  }

  /** The ranges that overlap `t` stand at the front. */
  ghost predicate AtFront(rs: seq<SubRange>, t: SubRange) {
    forall j, k :: 0 <= j < k < |rs| && t.Overlaps(rs[k]) ==> t.Overlaps(rs[j])
  }

  lemma NormalFormIsContiguous(rs: seq<SubRange>, t: SubRange)
    requires NormalForm(rs) && t.Valid()
    ensures Contiguous(rs, t)
  {
  }

  lemma {:induction false} CutIsDifference(rs: seq<SubRange>, t: SubRange, x: int)
    requires AllValid(rs) && t.Valid() && AtFront(rs, t)
    ensures Holds(Cut(rs, t), x) <==> Holds(rs, x) && !t.Has(x)
    decreases |rs|
  {
    if rs != [] && t.Overlaps(rs[0]) {
      CutIsDifference(rs[1..], t, x);
      SubtractOne(rs[0], t, x);
      HoldsSplit(rs[0].Subtract(t), Cut(rs[1..], t), x);
      HoldsFirst(rs, x);
    } else if Holds(rs, x) {
      var i :| 0 <= i < |rs| && rs[i].Has(x);
      assert i > 0 ==> !t.Overlaps(rs[i]);
    }
  }

  lemma {:induction false} SubtractPoint(rs: seq<SubRange>, t: SubRange, x: int)
    requires AllValid(rs) && t.Valid() && Contiguous(rs, t)
    ensures Holds(SubtractRange(rs, t), x) <==> Holds(rs, x) && !t.Has(x)
    decreases |rs|
  {
    if rs != [] && t.Overlaps(rs[0]) {
      assert AtFront(rs, t);
      CutIsDifference(rs, t, x);
    } else if rs != [] {
      SubtractPoint(rs[1..], t, x);
      HoldsFirst(rs, x);
      HoldsFirst([rs[0]] + SubtractRange(rs[1..], t), x);
    }
  }

  /** Every later range is still in the list when the loop stops early. */
  lemma {:induction false} CutLeaves(rs: seq<SubRange>, t: SubRange, k: nat)
    requires k < |rs| && t.Overlaps(rs[k]) && exists j :: 0 <= j < k && !t.Overlaps(rs[j])
    ensures rs[k] in Cut(rs, t)
    decreases |rs|
  {
    if t.Overlaps(rs[0]) {
      var j :| 0 <= j < k && !t.Overlaps(rs[j]);
      assert !t.Overlaps(rs[1..][j - 1]);
      CutLeaves(rs[1..], t, k - 1);
    }
  }

  lemma {:induction false} SubtractLeaves(rs: seq<SubRange>, t: SubRange, i: nat, j: nat, k: nat)
    requires i < j < k < |rs| && t.Overlaps(rs[i]) && !t.Overlaps(rs[j]) && t.Overlaps(rs[k])
    ensures rs[k] in SubtractRange(rs, t)
    decreases |rs|
  {
    if t.Overlaps(rs[0]) {
      CutLeaves(rs, t, k);
    } else {
      SubtractLeaves(rs[1..], t, i - 1, j - 1, k - 1);
    }
  }

  /** Subtracting is set difference exactly when the ranges it meets stand next to each other in the list. */
  lemma SubtractIsDifference(rs: seq<SubRange>, t: SubRange)
    requires AllValid(rs) && t.Valid()
    ensures (forall x :: Holds(SubtractRange(rs, t), x) <==> Holds(rs, x) && !t.Has(x)) <==> Contiguous(rs, t)
  {
    if Contiguous(rs, t) {
      forall x ensures Holds(SubtractRange(rs, t), x) <==> Holds(rs, x) && !t.Has(x) {
        SubtractPoint(rs, t, x);
      }
    } else {
      var i, j, k :| 0 <= i < j < k < |rs| && t.Overlaps(rs[i]) && t.Overlaps(rs[k]) && !t.Overlaps(rs[j]);
      SubtractLeaves(rs, t, i, j, k);
      var x := rs[k].Meet(t).low;
      assert rs[k].Has(x) && t.Has(x);
      assert Holds(SubtractRange(rs, t), x);
    }
  }

  lemma {:induction false} CutKeepsForm(rs: seq<SubRange>, t: SubRange)
    requires NormalForm(rs) && t.Valid()
    ensures NormalForm(Cut(rs, t))
    ensures forall i :: 0 <= i < |Cut(rs, t)| ==> rs[0].low <= Cut(rs, t)[i].low
    decreases |rs|
  {
    if rs != [] && t.Overlaps(rs[0]) {
      CutKeepsForm(rs[1..], t);
      SubtractOne(rs[0], t, 0);
      NormalFormSplit(rs[0].Subtract(t), Cut(rs[1..], t));
    }
  }

  lemma {:induction false} SubtractKeepsForm(rs: seq<SubRange>, t: SubRange)
    requires NormalForm(rs) && t.Valid()
    ensures NormalForm(SubtractRange(rs, t))
    ensures forall i :: 0 <= i < |SubtractRange(rs, t)| ==> rs[0].low <= SubtractRange(rs, t)[i].low
    decreases |rs|
  {
    if rs != [] && t.Overlaps(rs[0]) {
      CutKeepsForm(rs, t);
    } else if rs != [] {
      SubtractKeepsForm(rs[1..], t);
      NormalFormSplit([rs[0]], SubtractRange(rs[1..], t));
    }
  }

  // ---- intersecting

  /** The ranges up to `i` all overlap `t`. */
  ghost predicate InFront(rs: seq<SubRange>, t: SubRange, i: nat)
    requires i < |rs|
  {
    forall k :: 0 <= k <= i ==> t.Overlaps(rs[k])
  }

  /** Range `i` overlaps `t`, and so do all between the first that does and it. */
  ghost predicate Reached(rs: seq<SubRange>, t: SubRange, i: nat)
    requires i < |rs|
  {
    t.Overlaps(rs[i]) && forall j, k :: 0 <= j < k < i && t.Overlaps(rs[j]) ==> t.Overlaps(rs[k])
  }

  ghost predicate HeldInFront(rs: seq<SubRange>, t: SubRange, x: int) {
    exists i :: 0 <= i < |rs| && InFront(rs, t, i) && rs[i].Has(x)
  }

  ghost predicate HeldWhereReached(rs: seq<SubRange>, t: SubRange, x: int) {
    exists i :: 0 <= i < |rs| && Reached(rs, t, i) && rs[i].Has(x)
  }

  lemma HeldInFrontFirst(rs: seq<SubRange>, t: SubRange, x: int)
    requires rs != []
    ensures HeldInFront(rs, t, x) <==> t.Overlaps(rs[0]) && (rs[0].Has(x) || HeldInFront(rs[1..], t, x))
  {
    if HeldInFront(rs, t, x) {
      var i :| 0 <= i < |rs| && InFront(rs, t, i) && rs[i].Has(x);
      if i > 0 {
        assert forall k :: 0 <= k <= i - 1 ==> rs[1..][k] == rs[k + 1];
        assert InFront(rs[1..], t, i - 1);
      }
    }
    if t.Overlaps(rs[0]) && rs[0].Has(x) {
      assert InFront(rs, t, 0);
    }
    if t.Overlaps(rs[0]) && HeldInFront(rs[1..], t, x) {
      var i :| 0 <= i < |rs[1..]| && InFront(rs[1..], t, i) && rs[1..][i].Has(x);
      assert forall k :: 0 < k <= i + 1 ==> rs[k] == rs[1..][k - 1];
      assert InFront(rs, t, i + 1);
    }
  }

  lemma HeldWhereReachedFirst(rs: seq<SubRange>, t: SubRange, x: int)
    requires rs != []
    ensures t.Overlaps(rs[0]) ==> (HeldWhereReached(rs, t, x) <==> HeldInFront(rs, t, x))
    ensures !t.Overlaps(rs[0]) ==> (HeldWhereReached(rs, t, x) <==> HeldWhereReached(rs[1..], t, x))
  {
    if t.Overlaps(rs[0]) {
      assert forall i :: 0 <= i < |rs| ==> (Reached(rs, t, i) <==> InFront(rs, t, i));
    } else {
      forall i | 0 < i < |rs| ensures Reached(rs, t, i) <==> Reached(rs[1..], t, i - 1) {
        ReachedLater(rs, t, i);
      }
      if HeldWhereReached(rs, t, x) {
        var i :| 0 <= i < |rs| && Reached(rs, t, i) && rs[i].Has(x);
        assert Reached(rs[1..], t, i - 1);
      }
      if HeldWhereReached(rs[1..], t, x) {
        var i :| 0 <= i < |rs[1..]| && Reached(rs[1..], t, i) && rs[1..][i].Has(x);
        assert Reached(rs, t, i + 1);
      }
    }
  }

  lemma ReachedLater(rs: seq<SubRange>, t: SubRange, i: nat)
    requires 0 < i < |rs| && !t.Overlaps(rs[0])
    ensures Reached(rs, t, i) <==> Reached(rs[1..], t, i - 1)
  {
    assert forall k :: 0 <= k < |rs[1..]| ==> rs[1..][k] == rs[k + 1];
    if Reached(rs[1..], t, i - 1) {
      forall j, k | 0 <= j < k < i && t.Overlaps(rs[j]) ensures t.Overlaps(rs[k]) {
        assert t.Overlaps(rs[1..][j - 1]);
        assert t.Overlaps(rs[1..][k - 1]);
      }
    }
  }

  lemma {:induction false} CommonReaches(rs: seq<SubRange>, t: SubRange, x: int)
    requires AllValid(rs) && t.Valid()
    ensures Holds(Common(rs, t), x) <==> t.Has(x) && HeldInFront(rs, t, x)
    decreases |rs|
  {
    if rs != [] {
      HeldInFrontFirst(rs, t, x);
      if t.Overlaps(rs[0]) {
        CommonReaches(rs[1..], t, x);
        HoldsFirst(Common(rs, t), x);
      }
    }
  }

  /** On any list of ranges, intersecting holds what the reached ranges share with `t`: it stops at the first range
      behind those that does not overlap. */
  lemma {:induction false} IntersectReaches(rs: seq<SubRange>, t: SubRange, x: int)
    requires AllValid(rs) && t.Valid()
    ensures Holds(IntersectRange(rs, t), x) <==> t.Has(x) && HeldWhereReached(rs, t, x)
    decreases |rs|
  {
    if rs != [] {
      HeldWhereReachedFirst(rs, t, x);
      if t.Overlaps(rs[0]) {
        CommonReaches(rs, t, x);
      } else {
        IntersectReaches(rs[1..], t, x);
      }
    }
  }

  ghost predicate LeftInFront(rs: seq<SubRange>, t: SubRange, x: int) {
    exists i :: 0 <= i < |rs| && rs[i].Has(x) && !(InFront(rs, t, i) && t.Has(x))
  }

  /** A range has `x` that was not reached, or reached by a `t` that does not have it. */
  ghost predicate LeftBySubtract(rs: seq<SubRange>, t: SubRange, x: int) {
    exists i :: 0 <= i < |rs| && rs[i].Has(x) && !(Reached(rs, t, i) && t.Has(x))
  }

  lemma InFrontLater(rs: seq<SubRange>, t: SubRange, i: nat)
    requires 0 < i < |rs|
    ensures InFront(rs, t, i) <==> t.Overlaps(rs[0]) && InFront(rs[1..], t, i - 1)
  {
    assert forall k :: 0 <= k < |rs[1..]| ==> rs[1..][k] == rs[k + 1];
    if t.Overlaps(rs[0]) && InFront(rs[1..], t, i - 1) {
      forall k | 0 <= k <= i ensures t.Overlaps(rs[k]) {
        assert k > 0 ==> t.Overlaps(rs[1..][k - 1]);
      }
    }
  }

  lemma {:induction false} CutReaches(rs: seq<SubRange>, t: SubRange, x: int)
    requires AllValid(rs) && t.Valid()
    ensures Holds(Cut(rs, t), x) <==> LeftInFront(rs, t, x)
    decreases |rs|
  {
    if rs != [] {
      forall i | 0 < i < |rs| ensures InFront(rs, t, i) <==> t.Overlaps(rs[0]) && InFront(rs[1..], t, i - 1) {
        InFrontLater(rs, t, i);
      }
      if t.Overlaps(rs[0]) {
        CutReaches(rs[1..], t, x);
        SubtractOne(rs[0], t, x);
        HoldsSplit(rs[0].Subtract(t), Cut(rs[1..], t), x);
        if LeftInFront(rs[1..], t, x) {
          var i :| 0 <= i < |rs[1..]| && rs[1..][i].Has(x) && !(InFront(rs[1..], t, i) && t.Has(x));
          assert rs[i + 1].Has(x) && !(InFront(rs, t, i + 1) && t.Has(x));
        }
        if LeftInFront(rs, t, x) {
          var i :| 0 <= i < |rs| && rs[i].Has(x) && !(InFront(rs, t, i) && t.Has(x));
          assert i > 0 ==> rs[1..][i - 1].Has(x) && !(InFront(rs[1..], t, i - 1) && t.Has(x));
        }
      }
    }
  }

  /** On any list of ranges, subtracting takes `t` out of the reached ranges, and leaves the others as they are. */
  lemma {:induction false} SubtractReaches(rs: seq<SubRange>, t: SubRange, x: int)
    requires AllValid(rs) && t.Valid()
    ensures Holds(SubtractRange(rs, t), x) <==> LeftBySubtract(rs, t, x)
    decreases |rs|
  {
    if rs != [] && t.Overlaps(rs[0]) {
      CutReaches(rs, t, x);
      assert forall i :: 0 <= i < |rs| ==> (Reached(rs, t, i) <==> InFront(rs, t, i));
    } else if rs != [] {
      SubtractReaches(rs[1..], t, x);
      HoldsSplit([rs[0]], SubtractRange(rs[1..], t), x);
      forall i | 0 < i < |rs| ensures Reached(rs, t, i) <==> Reached(rs[1..], t, i - 1) {
        ReachedLater(rs, t, i);
      }
      if LeftBySubtract(rs[1..], t, x) {
        var i :| 0 <= i < |rs[1..]| && rs[1..][i].Has(x) && !(Reached(rs[1..], t, i) && t.Has(x));
        assert rs[i + 1].Has(x) && !(Reached(rs, t, i + 1) && t.Has(x));
      }
      if LeftBySubtract(rs, t, x) {
        var i :| 0 <= i < |rs| && rs[i].Has(x) && !(Reached(rs, t, i) && t.Has(x));
        assert if i == 0 then [rs[0]][0].Has(x)
               else rs[1..][i - 1].Has(x) && !(Reached(rs[1..], t, i - 1) && t.Has(x));
      }
      assert rs[0].Has(x) ==> !Reached(rs, t, 0);
    }
  }

  lemma IntersectPoint(rs: seq<SubRange>, t: SubRange, x: int)
    requires AllValid(rs) && t.Valid() && Contiguous(rs, t)
    ensures Holds(IntersectRange(rs, t), x) <==> Holds(rs, x) && t.Has(x)
  {
    IntersectReaches(rs, t, x);
    if Holds(rs, x) && t.Has(x) {
      var i :| 0 <= i < |rs| && rs[i].Has(x);
      assert Reached(rs, t, i);
    }
  }

  /** What an overlapping range that is not reached shares with `t` is held by reached ranges as well. */
  ghost predicate Covered(rs: seq<SubRange>, t: SubRange) {
    forall k, x :: 0 <= k < |rs| && !Reached(rs, t, k) && rs[k].Has(x) && t.Has(x) ==> HeldWhereReached(rs, t, x)
  }

  /** On any list of ranges, intersecting is set intersection exactly when the reached ranges cover what it needs of
      the others. */
  lemma IntersectIsMeetIfCovered(rs: seq<SubRange>, t: SubRange)
    requires AllValid(rs) && t.Valid()
    ensures (forall x :: Holds(IntersectRange(rs, t), x) <==> Holds(rs, x) && t.Has(x)) <==> Covered(rs, t)
  {
    hide Reached;
    forall x ensures Holds(IntersectRange(rs, t), x) <==> t.Has(x) && HeldWhereReached(rs, t, x) {
      IntersectReaches(rs, t, x);
    }
    if Covered(rs, t) {
      forall x | Holds(rs, x) && t.Has(x) ensures HeldWhereReached(rs, t, x) {
        var k :| 0 <= k < |rs| && rs[k].Has(x);
        assert Reached(rs, t, k) || HeldWhereReached(rs, t, x);
      }
    } else {
      var k, x :| 0 <= k < |rs| && !Reached(rs, t, k) && rs[k].Has(x) && t.Has(x) && !HeldWhereReached(rs, t, x);
      assert Holds(rs, x);
    }
  }

  ghost predicate Disjoint(rs: seq<SubRange>) {
    forall i, j :: 0 <= i < j < |rs| ==> !rs[i].Overlaps(rs[j])
  }

  /** On disjoint ranges, in whatever order, intersecting is set intersection exactly when the ranges it meets stand
      next to each other in the list. */
  lemma IntersectIsMeet(rs: seq<SubRange>, t: SubRange)
    requires AllValid(rs) && t.Valid() && Disjoint(rs)
    ensures (forall x :: Holds(IntersectRange(rs, t), x) <==> Holds(rs, x) && t.Has(x)) <==> Contiguous(rs, t)
  {
    if Contiguous(rs, t) {
      forall x ensures Holds(IntersectRange(rs, t), x) <==> Holds(rs, x) && t.Has(x) {
        IntersectPoint(rs, t, x);
      }
    } else {
      var i, j, k :| 0 <= i < j < k < |rs| && t.Overlaps(rs[i]) && t.Overlaps(rs[k]) && !t.Overlaps(rs[j]);
      IntersectLoses(rs, t, i, j, k);
    }
  }

  lemma OnlyHolder(rs: seq<SubRange>, k: nat, l: nat, x: int)
    requires Disjoint(rs) && k < |rs| && l < |rs| && rs[k].Has(x) && rs[l].Has(x)
    ensures k == l
  {
    var i, j := if k < l then k else l, if k < l then l else k;
    assert rs[i].Overlaps(rs[j]);
  }

  /** What a range behind the stop shares with `t` is lost. */
  lemma IntersectLoses(rs: seq<SubRange>, t: SubRange, i: nat, j: nat, k: nat)
    requires AllValid(rs) && t.Valid() && Disjoint(rs)
    requires i < j < k < |rs| && t.Overlaps(rs[i]) && !t.Overlaps(rs[j]) && t.Overlaps(rs[k])
    ensures exists x :: Holds(rs, x) && t.Has(x) && !Holds(IntersectRange(rs, t), x)
  {
    var x := rs[k].Meet(t).low;
    assert rs[k].Has(x) && t.Has(x);
    IntersectReaches(rs, t, x);
    if HeldWhereReached(rs, t, x) {
      var l :| 0 <= l < |rs| && Reached(rs, t, l) && rs[l].Has(x);
      OnlyHolder(rs, k, l, x);
    }
    assert Holds(rs, x);
  }

  /** In normal form the ranges met stand next to each other. */
  lemma NormalFormIntersects(rs: seq<SubRange>, t: SubRange, x: int)
    requires NormalForm(rs) && t.Valid()
    ensures Holds(IntersectRange(rs, t), x) <==> Holds(rs, x) && t.Has(x)
  {
    NormalFormIsContiguous(rs, t);
    IntersectPoint(rs, t, x);
  }

  /** The same three additions as above: intersecting with 10 to 20 loses 20. */
  lemma IntersectWrong()
    ensures var rs := AddRange(AddRange(AddRange([], SubRange(10, 10)), SubRange(1, 1)), SubRange(20, 20));
            Holds(rs, 20) && !Holds(IntersectRange(rs, SubRange(10, 20)), 20)
  {
    assert AddRange([SubRange(1, 1)], SubRange(20, 20)) == [SubRange(1, 1), SubRange(20, 20)];
    var rs := [SubRange(10, 10), SubRange(1, 1), SubRange(20, 20)];
    assert AddRange(AddRange(AddRange([], SubRange(10, 10)), SubRange(1, 1)), SubRange(20, 20)) == rs;
    assert rs[2].Has(20);
    assert Common(rs[1..], SubRange(10, 20)) == [];
    assert IntersectRange(rs, SubRange(10, 20)) == [SubRange(10, 10)];
  }

  ghost predicate Within(rs: seq<SubRange>, t: SubRange) {
    forall i :: 0 <= i < |rs| ==> t.low <= rs[i].low && rs[i].high <= t.high
  }

  lemma {:induction false} CommonKeepsForm(rs: seq<SubRange>, t: SubRange)
    requires NormalForm(rs) && t.Valid()
    ensures NormalForm(Common(rs, t)) && Within(Common(rs, t), t)
    ensures forall i :: 0 <= i < |Common(rs, t)| ==> rs[0].low <= Common(rs, t)[i].low
    decreases |rs|
  {
    if rs != [] && t.Overlaps(rs[0]) {
      CommonKeepsForm(rs[1..], t);
      NormalFormSplit([rs[0].Meet(t)], Common(rs[1..], t));
    }
  }

  lemma {:induction false} IntersectKeepsForm(rs: seq<SubRange>, t: SubRange)
    requires NormalForm(rs) && t.Valid()
    ensures NormalForm(IntersectRange(rs, t)) && Within(IntersectRange(rs, t), t)
    decreases |rs|
  {
    if rs != [] && t.Overlaps(rs[0]) {
      CommonKeepsForm(rs, t);
    } else if rs != [] {
      IntersectKeepsForm(rs[1..], t);
    }
  }

  // ---- whole range sets as arguments: each of their ranges in turn

  function AddAll(rs: seq<SubRange>, ts: seq<SubRange>): seq<SubRange> {
    if ts == [] then rs else AddRange(AddAll(rs, ts[..|ts| - 1]), ts[|ts| - 1])
  }

  function SubtractAll(rs: seq<SubRange>, ts: seq<SubRange>): seq<SubRange> {
    if ts == [] then rs else SubtractRange(SubtractAll(rs, ts[..|ts| - 1]), ts[|ts| - 1])
  }

  function IntersectAll(rs: seq<SubRange>, ts: seq<SubRange>): seq<SubRange> {
    if ts == [] then [] else IntersectAll(rs, ts[..|ts| - 1]) + IntersectRange(rs, ts[|ts| - 1])
  }

  lemma HoldsLast(rs: seq<SubRange>, x: int)
    requires rs != []
    ensures Holds(rs, x) <==> Holds(rs[..|rs| - 1], x) || rs[|rs| - 1].Has(x)
  {
    HoldsSplit(rs[..|rs| - 1], [rs[|rs| - 1]], x);
    assert rs == rs[..|rs| - 1] + [rs[|rs| - 1]];
    assert rs[|rs| - 1].Has(x) ==> [rs[|rs| - 1]][0].Has(x);
  }

  lemma {:induction false} AddAllIsUnion(rs: seq<SubRange>, ts: seq<SubRange>, x: int)
    requires AllValid(rs) && AllValid(ts)
    ensures AllValid(AddAll(rs, ts))
    ensures Holds(AddAll(rs, ts), x) <==> Holds(rs, x) || Holds(ts, x)
    decreases |ts|
  {
    if ts != [] {
      var front, t := ts[..|ts| - 1], ts[|ts| - 1];
      AddAllIsUnion(rs, front, x);
      AddIsUnion(AddAll(rs, front), t, x);
      AddKeepsValid(AddAll(rs, front), t);
      HoldsLast(ts, x);
    }
  }

  lemma {:induction false} SubtractAllIsDifference(rs: seq<SubRange>, ts: seq<SubRange>, x: int)
    requires NormalForm(rs) && AllValid(ts)
    ensures NormalForm(SubtractAll(rs, ts))
    ensures Holds(SubtractAll(rs, ts), x) <==> Holds(rs, x) && !Holds(ts, x)
    decreases |ts|
  {
    if ts != [] {
      var front, t := ts[..|ts| - 1], ts[|ts| - 1];
      SubtractAllIsDifference(rs, front, x);
      NormalFormIsContiguous(SubtractAll(rs, front), t);
      SubtractPoint(SubtractAll(rs, front), t, x);
      SubtractKeepsForm(SubtractAll(rs, front), t);
      HoldsLast(ts, x);
    }
  }

  lemma {:induction false} IntersectAllIsMeet(rs: seq<SubRange>, ts: seq<SubRange>, x: int)
    requires NormalForm(rs) && AllValid(ts)
    ensures Holds(IntersectAll(rs, ts), x) <==> Holds(rs, x) && Holds(ts, x)
    decreases |ts|
  {
    if ts != [] {
      var front, t := ts[..|ts| - 1], ts[|ts| - 1];
      IntersectAllIsMeet(rs, front, x);
      NormalFormIntersects(rs, t, x);
      HoldsLast(ts, x);
      HoldsSplit(IntersectAll(rs, front), IntersectRange(rs, t), x);
    }
  }

  lemma {:induction false} IntersectAllKeepsForm(rs: seq<SubRange>, ts: seq<SubRange>)
    requires NormalForm(rs) && NormalForm(ts)
    ensures NormalForm(IntersectAll(rs, ts))
    ensures forall i :: 0 <= i < |IntersectAll(rs, ts)| ==>
              ts != [] && IntersectAll(rs, ts)[i].high <= ts[|ts| - 1].high
    decreases |ts|
  {
    if ts != [] {
      var front, t := ts[..|ts| - 1], ts[|ts| - 1];
      IntersectAllKeepsForm(rs, front);
      IntersectKeepsForm(rs, t);
      NormalFormSplit(IntersectAll(rs, front), IntersectRange(rs, t));
    }
  }

  lemma {:induction false} AbsorbLength(rs: seq<SubRange>, t: SubRange)
    ensures |Absorb(rs, t)| <= |rs| + 1
    ensures rs != [] && t.Touches(rs[0]) ==> |Absorb(rs, t)| <= |rs|
    decreases |rs|
  {
    if rs != [] && t.Touches(rs[0]) {
      AbsorbLength(rs[1..], t.Add(rs[0]));
    }
  }

  lemma {:induction false} AddLength(rs: seq<SubRange>, t: SubRange)
    ensures |AddRange(rs, t)| <= |rs| + 1
    ensures |AddRange(rs, t)| == |rs| + 1 <==> !TouchesSome(rs, t)
    decreases |rs|
  {
    if rs != [] {
      AbsorbLength(rs, t);
      AddLength(rs[1..], t);
      assert TouchesSome(rs, t) <==> t.Touches(rs[0]) || TouchesSome(rs[1..], t) by {
        if i :| 0 <= i < |rs| && t.Touches(rs[i]) {
          assert i > 0 ==> t.Touches(rs[1..][i - 1]);
        }
        if i :| 0 <= i < |rs[1..]| && t.Touches(rs[1..][i]) {
          assert t.Touches(rs[i + 1]);
        }
      }
    }
  }

  lemma {:induction false} AddAllLength(ts: seq<SubRange>)
    ensures |AddAll([], ts)| <= |ts|
    decreases |ts|
  {
    if ts != [] {
      AddAllLength(ts[..|ts| - 1]);
      AddLength(AddAll([], ts[..|ts| - 1]), ts[|ts| - 1]);
    }
  }

  ghost predicate NoneTouchesEarlier(ts: seq<SubRange>) {
    forall i, j :: 0 <= i < j < |ts| ==> !ts[j].Touches(ts[i])
  }

  lemma NoneTouchesEarlierLast(ts: seq<SubRange>)
    requires ts != []
    ensures NoneTouchesEarlier(ts)
        <==> NoneTouchesEarlier(ts[..|ts| - 1]) && !TouchesSome(ts[..|ts| - 1], ts[|ts| - 1])
  {
  }

  /** Adding to a list that is no longer than `front` appends to `front` only if it is `front`. */
  lemma AppendsOnly(copy: seq<SubRange>, front: seq<SubRange>, t: SubRange)
    requires |copy| <= |front|
    ensures AddRange(copy, t) == front + [t] <==> copy == front && !TouchesSome(copy, t)
  {
    hide AddRange, TouchesSome;
    AddLength(copy, t);
    if !TouchesSome(copy, t) {
      AddApart(copy, t);
      assert copy == (copy + [t])[..|copy|] && front == (front + [t])[..|front|];
    }
  }

  /** A clone has the same ranges exactly when no range touches one before it in the list. */
  lemma {:induction false} CloneIsSame(ts: seq<SubRange>)
    ensures AddAll([], ts) == ts <==> NoneTouchesEarlier(ts)
    decreases |ts|
  {
    hide AddRange, NoneTouchesEarlier, TouchesSome;
    if ts == [] {
      assert NoneTouchesEarlier(ts) by {
        NoneToTouch(ts);
      }
    } else {
      var front, t := ts[..|ts| - 1], ts[|ts| - 1];
      CloneIsSame(front);
      AddAllLength(front);
      AppendsOnly(AddAll([], front), front, t);
      NoneTouchesEarlierLast(ts);
      assert ts == front + [t];
    }
  }

  lemma NoneToTouch(ts: seq<SubRange>)
    requires ts == []
    ensures NoneTouchesEarlier(ts)
  {
  }

  /** Four additions after which a clone has other ranges. */
  lemma CloneDiffers()
    ensures var rs := AddRange(AddRange(AddRange([], SubRange(10, 10)), SubRange(1, 1)), SubRange(20, 20));
            AddAll([], AddRange(rs, SubRange(11, 25))) != AddRange(rs, SubRange(11, 25))
  {
    assert AddRange([SubRange(1, 1)], SubRange(20, 20)) == [SubRange(1, 1), SubRange(20, 20)];
    var rs := [SubRange(10, 10), SubRange(1, 1), SubRange(20, 20)];
    assert AddRange(AddRange(AddRange([], SubRange(10, 10)), SubRange(1, 1)), SubRange(20, 20)) == rs;
    assert Absorb(rs[1..], SubRange(10, 25)) == [SubRange(10, 25)] + rs[1..];
    var ts := AddRange(rs, SubRange(11, 25));
    assert ts == [SubRange(10, 25), SubRange(1, 1), SubRange(20, 20)];
    assert ts[2].Touches(ts[0]);
    CloneIsSame(ts);
  }

  // ---- whole histories

  datatype Edit = Adding(range: SubRange) | Subtracting(range: SubRange) | Intersecting(range: SubRange)

  function Step(rs: seq<SubRange>, e: Edit): seq<SubRange> {
    match e
    case Adding(t) => AddRange(rs, t)
    case Subtracting(t) => SubtractRange(rs, t)
    case Intersecting(t) => IntersectRange(rs, t)
  }

  function Run(edits: seq<Edit>): seq<SubRange> {
    if edits == [] then [] else Step(Run(edits[..|edits| - 1]), edits[|edits| - 1])
  }

  /** Whether `x` is in the set after the edits, taken as set operations. */
  ghost predicate IsIn(edits: seq<Edit>, x: int) {
    edits != [] &&
    var before := IsIn(edits[..|edits| - 1], x);
    match edits[|edits| - 1]
    case Adding(t) => before || t.Has(x)
    case Subtracting(t) => before && !t.Has(x)
    case Intersecting(t) => before && t.Has(x)
  }

  /** Every added range touched one that was there at the time, or lay above all of them. */
  ghost predicate WellPlaced(edits: seq<Edit>) {
    forall k {:trigger edits[k]} :: 0 <= k < |edits| && edits[k].Adding? ==>
      TouchesSome(Run(edits[..k]), edits[k].range) || AboveAll(Run(edits[..k]), edits[k].range)
  }

  lemma StepIsSetOperation(rs: seq<SubRange>, e: Edit, x: int)
    requires NormalForm(rs) && e.range.Valid()
    requires e.Adding? ==> TouchesSome(rs, e.range) || AboveAll(rs, e.range)
    ensures NormalForm(Step(rs, e))
    ensures Holds(Step(rs, e), x) <==>
            if e.Adding? then Holds(rs, x) || e.range.Has(x)
            else if e.Subtracting? then Holds(rs, x) && !e.range.Has(x)
            else Holds(rs, x) && e.range.Has(x)
  {
    NormalFormIsContiguous(rs, e.range);
    match e
    case Adding(t) =>
      AddKeepsForm(rs, t);
      AddIsUnion(rs, t, x);
    case Subtracting(t) =>
      SubtractKeepsForm(rs, t);
      SubtractPoint(rs, t, x);
    case Intersecting(t) =>
      IntersectKeepsForm(rs, t);
      NormalFormIntersects(rs, t, x);
  }

  /** Over every history of well placed edits the list stays in normal form and holds the plain set. */
  lemma {:induction false} HistoryRefines(edits: seq<Edit>, x: int)
    requires WellPlaced(edits) && forall k :: 0 <= k < |edits| ==> edits[k].range.Valid()
    ensures NormalForm(Run(edits))
    ensures Holds(Run(edits), x) <==> IsIn(edits, x)
    decreases |edits|
  {
    if edits != [] {
      var front := edits[..|edits| - 1];
      forall k | 0 <= k < |front| ensures front[..k] == edits[..k] {}
      HistoryRefines(front, x);
      StepIsSetOperation(Run(front), edits[|edits| - 1], x);
    }
  }

  // ---- counting and listing

  function Total(rs: seq<SubRange>): int {
    if rs == [] then 0 else Total(rs[..|rs| - 1]) + rs[|rs| - 1].Length()
  }

  function Span(low: int, high: int): seq<int> {
    if low > high then [] else seq(high + 1 - low, i => low + i)
  }

  function Numbers(rs: seq<SubRange>): seq<int> {
    if rs == [] then [] else Numbers(rs[..|rs| - 1]) + Span(rs[|rs| - 1].low, rs[|rs| - 1].high)
  }

  ghost predicate Increasing(s: seq<int>) {
    forall i, j :: 0 <= i < j < |s| ==> s[i] < s[j]
  }

  /** The numbers are exactly the members, each once and in order. */
  lemma {:induction false} NumbersAreMembers(rs: seq<SubRange>)
    requires NormalForm(rs)
    ensures Increasing(Numbers(rs)) && |Numbers(rs)| == Total(rs)
    ensures forall x :: x in Numbers(rs) <==> Holds(rs, x)
    ensures forall x :: x in Numbers(rs) ==> x <= rs[|rs| - 1].high
    decreases |rs|
  {
    if rs != [] {
      var front, t := rs[..|rs| - 1], rs[|rs| - 1];
      NumbersAreMembers(front);
      var a, b := Numbers(front), Span(t.low, t.high);
      forall x ensures x in Numbers(rs) <==> Holds(rs, x) {
        HoldsLast(rs, x);
        if t.Has(x) {
          assert b[x - t.low] == x;
        }
      }
      forall i | 0 <= i < |a| ensures a[i] < t.low {
        assert a[i] in a;
      }
    }
  }

  lemma {:induction false} IncreasingIsDistinct(s: seq<int>)
    requires Increasing(s)
    ensures |set x | x in s| == |s|
    decreases |s|
  {
    if s != [] {
      var front, last := s[..|s| - 1], s[|s| - 1];
      IncreasingIsDistinct(front);
      assert (set x | x in s) == (set x | x in front) + {last};
    }
  }

  /** The length is the number of members. */
  lemma LengthIsCardinality(rs: seq<SubRange>, members: set<int>)
    requires NormalForm(rs) && forall x :: x in members <==> Holds(rs, x)
    ensures Total(rs) == |members|
  {
    hide *;
    NumbersAreMembers(rs);
    var s := Numbers(rs);
    IncreasingIsDistinct(s);
    assert forall x :: x in members <==> Holds(rs, x);
    assert forall x :: x in members <==> x in s;
    assert members == set x | x in s;
  }

  /** Two lists in normal form with the same members are the same list. */
  lemma {:induction false} NormalFormIsCanonical(rs: seq<SubRange>, ts: seq<SubRange>)
    requires NormalForm(rs) && NormalForm(ts) && forall x :: Holds(rs, x) <==> Holds(ts, x)
    ensures rs == ts
    decreases |rs|
  {
    if rs != [] {
      assert Holds(rs, rs[0].low);
    }
    if ts != [] {
      assert Holds(ts, ts[0].low);
    }
    if rs != [] && ts != [] {
      SameFirst(rs, ts);
      forall x ensures Holds(rs[1..], x) <==> Holds(ts[1..], x) {
        HoldsFirst(rs, x);
        HoldsFirst(ts, x);
      }
      NormalFormIsCanonical(rs[1..], ts[1..]);
      assert rs == [rs[0]] + rs[1..] && ts == [ts[0]] + ts[1..];
    }
  }

  lemma LowestMember(rs: seq<SubRange>, ts: seq<SubRange>)
    requires NormalForm(rs) && NormalForm(ts) && rs != [] && ts != []
    requires forall x :: Holds(rs, x) ==> Holds(ts, x)
    ensures ts[0].low <= rs[0].low
    ensures ts[0].low == rs[0].low ==> rs[0].high <= ts[0].high
  {
    assert Holds(rs, rs[0].low);
    var x := ts[0].high + 1;
    HoldsFirst(rs, x);
    assert !Holds(ts, x);
  }

  lemma SameFirst(rs: seq<SubRange>, ts: seq<SubRange>)
    requires NormalForm(rs) && NormalForm(ts) && rs != [] && ts != []
    requires forall x :: Holds(rs, x) <==> Holds(ts, x)
    ensures rs[0] == ts[0]
  {
    LowestMember(rs, ts);
    LowestMember(ts, rs);
  }

  /** `index`, from range `e` on. It reads past the end of the list (and throws) if `k` is too large. */
  function IndexFrom(rs: seq<SubRange>, e: nat, k: int): Option<int>
    requires e <= |rs|
    decreases |rs| - e
  {
    if e == |rs| then None
    else if rs[e].Length() <= k then IndexFrom(rs, e + 1, k - rs[e].Length())
    else Some(rs[e].low + k)
  }

  lemma {:induction false} NumbersPrefix(rs: seq<SubRange>, e: nat)
    requires e <= |rs|
    ensures Numbers(rs[..e]) <= Numbers(rs)
    decreases |rs|
  {
    if e == |rs| {
      assert rs[..e] == rs;
    } else {
      assert rs[..|rs| - 1][..e] == rs[..e];
      NumbersPrefix(rs[..|rs| - 1], e);
    }
  }

  lemma NumbersStep(rs: seq<SubRange>, e: nat, k: nat)
    requires AllValid(rs) && e < |rs|
    ensures Numbers(rs[..e + 1]) == Numbers(rs[..e]) + Span(rs[e].low, rs[e].high)
    ensures |Numbers(rs[..e + 1])| == |Numbers(rs[..e])| + rs[e].Length()
    ensures |Numbers(rs[..e + 1])| <= |Numbers(rs)|
    ensures k < rs[e].Length() ==> Numbers(rs)[|Numbers(rs[..e])| + k] == rs[e].low + k
  {
    assert rs[..e + 1][..e] == rs[..e];
    NumbersPrefix(rs, e + 1);
  }

  lemma {:induction false} IndexFromIsNumber(rs: seq<SubRange>, e: nat, k: nat)
    requires AllValid(rs) && e <= |rs|
    ensures var n := |Numbers(rs[..e])| + k;
            IndexFrom(rs, e, k) == if n < |Numbers(rs)| then Some(Numbers(rs)[n]) else None
    decreases |rs| - e
  {
    hide Numbers;
    if e == |rs| {
      assert rs[..e] == rs;
    } else {
      NumbersStep(rs, e, k);
      if rs[e].Length() <= k {
        IndexFromIsNumber(rs, e + 1, k - rs[e].Length());
      }
    }
  }

  /** `index(k)` is `numbers()[k]`, and there is none exactly from the length on. */
  lemma IndexIsNumber(rs: seq<SubRange>, k: nat)
    requires NormalForm(rs)
    ensures k < Total(rs) ==> k < |Numbers(rs)| && IndexFrom(rs, 0, k) == Some(Numbers(rs)[k])
    ensures k >= Total(rs) ==> IndexFrom(rs, 0, k) == None
  {
    NumbersAreMembers(rs);
    IndexFromIsNumber(rs, 0, k);
    assert rs[..0] == [];
  }

  // ---- one round of the loops

  lemma AddStep(rs: seq<SubRange>, e: nat, t: SubRange)
    requires e <= |rs|
    ensures if e < |rs| && !t.Touches(rs[e])
            then rs[..e] + AddRange(rs[e..], t) == rs[..e + 1] + AddRange(rs[e + 1..], t)
            else AddRange(rs[e..], t) == Absorb(rs[e..], t)
  {
    if e < |rs| {
      assert rs[e..][1..] == rs[e + 1..];
      assert rs[..e] + [rs[e]] == rs[..e + 1];
    }
  }

  lemma AbsorbStep(rs: seq<SubRange>, e: nat, t: SubRange)
    requires e <= |rs|
    ensures Absorb(rs[e..], t)
         == if e < |rs| && t.Touches(rs[e]) then Absorb(rs[e + 1..], t.Add(rs[e])) else [t] + rs[e..]
  {
    if e < |rs| {
      assert rs[e..][1..] == rs[e + 1..];
    }
  }

  lemma SubtractStep(rs: seq<SubRange>, e: nat, t: SubRange)
    requires e <= |rs|
    ensures if e < |rs| && !t.Overlaps(rs[e])
            then rs[..e] + SubtractRange(rs[e..], t) == rs[..e + 1] + SubtractRange(rs[e + 1..], t)
            else SubtractRange(rs[e..], t) == Cut(rs[e..], t)
  {
    if e < |rs| {
      assert rs[e..][1..] == rs[e + 1..];
      assert rs[..e] + [rs[e]] == rs[..e + 1];
    }
  }

  lemma CutStep(rs: seq<SubRange>, e: nat, t: SubRange)
    requires e <= |rs|
    ensures Cut(rs[e..], t)
         == if e < |rs| && t.Overlaps(rs[e]) then rs[e].Subtract(t) + Cut(rs[e + 1..], t) else rs[e..]
  {
    if e < |rs| {
      assert rs[e..][1..] == rs[e + 1..];
    }
  }

  // ---- the object that holds the list

  class DRange {
    var ranges: seq<SubRange>
    var length: int

    constructor ()
      ensures ranges == [] && length == 0
    {
      ranges, length := [], 0;
    }

    method UpdateLength()
      modifies this`length
      ensures length == Total(ranges)
    {
      length := 0;
      for i := 0 to |ranges|
        invariant length == Total(ranges[..i])
      {
        assert ranges[..i + 1][..i] == ranges[..i];
        length := length + ranges[i].Length();
      }
      assert ranges[..|ranges|] == ranges;
    }

    method Add(range: SubRange)
      modifies this
      ensures ranges == AddRange(old(ranges), range) && length == Total(ranges)
    {
      hide AddRange, Absorb, Total;
      var t, e := range, 0;
      ghost var whole := AddRange(ranges, t);
      assert ranges[0..] == ranges && ranges[..0] == [];
      while e < |ranges| && !t.Touches(ranges[e])
        invariant e <= |ranges| && whole == ranges[..e] + AddRange(ranges[e..], t)
      {
        AddStep(ranges, e, t);
        e := e + 1;
      }
      AddStep(ranges, e, t);
      var r := ranges[..e];
      while e < |ranges| && t.Touches(ranges[e])
        invariant e <= |ranges| && whole == r + Absorb(ranges[e..], t)
      {
        AbsorbStep(ranges, e, t);
        t, e := t.Add(ranges[e]), e + 1;
      }
      AbsorbStep(ranges, e, t);
      assert r + ([t] + ranges[e..]) == r + [t] + ranges[e..];
      ranges := r + [t] + ranges[e..];
      UpdateLength();
    }

    method Subtract(t: SubRange)
      modifies this
      ensures ranges == SubtractRange(old(ranges), t) && length == Total(ranges)
    {
      hide SubtractRange, Cut, Total;
      var e := 0;
      ghost var whole := SubtractRange(ranges, t);
      assert ranges[0..] == ranges && ranges[..0] == [];
      while e < |ranges| && !t.Overlaps(ranges[e])
        invariant e <= |ranges| && whole == ranges[..e] + SubtractRange(ranges[e..], t)
      {
        SubtractStep(ranges, e, t);
        e := e + 1;
      }
      SubtractStep(ranges, e, t);
      var r := ranges[..e];
      while e < |ranges| && t.Overlaps(ranges[e])
        invariant e <= |ranges| && whole == r + Cut(ranges[e..], t)
      {
        CutStep(ranges, e, t);
        r, e := r + ranges[e].Subtract(t), e + 1;
      }
      CutStep(ranges, e, t);
      ranges := r + ranges[e..];
      UpdateLength();
    }

    /** The ranges shared with `t`, behind those collected already. */
    method Collect(t: SubRange, collected: seq<SubRange>) returns (i: seq<SubRange>)
      ensures i == collected + IntersectRange(ranges, t)
    {
      i := collected;
      var r := 0;
      ghost var whole := IntersectRange(ranges, t);
      while r < |ranges| && !t.Overlaps(ranges[r])
        invariant r <= |ranges| && whole == IntersectRange(ranges[r..], t)
      {
        assert ranges[r..][1..] == ranges[r + 1..];
        r := r + 1;
      }
      assert IntersectRange(ranges[r..], t) == Common(ranges[r..], t);
      while r < |ranges| && t.Overlaps(ranges[r])
        invariant r <= |ranges| && collected + whole == i + Common(ranges[r..], t)
      {
        assert ranges[r..][1..] == ranges[r + 1..];
        i, r := i + [ranges[r].Meet(t)], r + 1;
      }
    }

    method Intersect(t: SubRange)
      modifies this
      ensures ranges == IntersectRange(old(ranges), t) && length == Total(ranges)
    {
      ranges := Collect(t, []);
      UpdateLength();
    }

    /** Another set, or this one. */
    method AddSet(other: DRange)
      modifies this
      ensures ranges == AddAll(old(ranges), old(other.ranges))
      ensures old(length) == Total(old(ranges)) ==> length == Total(ranges)
    {
      var ts := other.ranges;
      for k := 0 to |ts|
        invariant ranges == AddAll(old(ranges), ts[..k])
        invariant old(length) == Total(old(ranges)) ==> length == Total(ranges)
      {
        assert ts[..k + 1][..k] == ts[..k];
        Add(ts[k]);
      }
      assert ts[..|ts|] == ts;
    }

    method SubtractSet(other: DRange)
      modifies this
      ensures ranges == SubtractAll(old(ranges), old(other.ranges))
      ensures old(length) == Total(old(ranges)) ==> length == Total(ranges)
    {
      var ts := other.ranges;
      for k := 0 to |ts|
        invariant ranges == SubtractAll(old(ranges), ts[..k])
        invariant old(length) == Total(old(ranges)) ==> length == Total(ranges)
      {
        assert ts[..k + 1][..k] == ts[..k];
        Subtract(ts[k]);
      }
      assert ts[..|ts|] == ts;
    }

    method IntersectSet(other: DRange)
      modifies this
      ensures ranges == IntersectAll(old(ranges), old(other.ranges)) && length == Total(ranges)
    {
      var ts := other.ranges;
      var i := [];
      for k := 0 to |ts|
        invariant ranges == old(ranges) && i == IntersectAll(ranges, ts[..k])
      {
        assert ts[..k + 1][..k] == ts[..k];
        i := Collect(ts[k], i);
      }
      assert ts[..|ts|] == ts;
      ranges := i;
      UpdateLength();
    }

    method Clone() returns (c: DRange)
      ensures fresh(c) && c.ranges == AddAll([], ranges) && c.length == Total(c.ranges)
    {
      c := new DRange();
      c.AddSet(this);
    }

    method Index(k: int) returns (x: Option<int>)
      ensures x == IndexFrom(ranges, 0, k)
    {
      var t, e := k, 0;
      while e < |ranges| && ranges[e].Length() <= t
        invariant 0 <= e <= |ranges| && IndexFrom(ranges, 0, k) == IndexFrom(ranges, e, t)
      {
        t, e := t - ranges[e].Length(), e + 1;
      }
      return if e < |ranges| then Some(ranges[e].low + t) else None;
    }

    method AllNumbers() returns (t: seq<int>)
      ensures t == Numbers(ranges)
    {
      t := [];
      for k := 0 to |ranges|
        invariant t == Numbers(ranges[..k])
      {
        var e := ranges[k];
        var r := e.low;
        ghost var before := t;
        while r <= e.high
          invariant (r <= e.high + 1 || r == e.low) && t == before + Span(e.low, r - 1)
        {
          assert Span(e.low, r) == Span(e.low, r - 1) + [r];
          t, r := t + [r], r + 1;
        }
        assert ranges[..k + 1][..k] == ranges[..k];
      }
      assert ranges[..|ranges|] == ranges;
    }
  }
}
