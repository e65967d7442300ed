/** `_get_image_filenames`: the frame files in chronological order. Frame files
    are named by their frame index, so a file is identified by that index. */
module Ordering {

  /** The least element of a non-empty set of indices. */
  function Min(s: set<nat>): (m: nat)
    requires s != {}
    ensures m in s && forall x :: x in s ==> m <= x
  {
    MinExists(s);
    var m :| IsMin(s, m);
    m
  }

  predicate IsMin(s: set<nat>, m: nat) {
    m in s && forall x :: x in s ==> m <= x
  }

  lemma {:induction false} MinExists(s: set<nat>)
    requires s != {}
    ensures exists m :: IsMin(s, m)
    decreases s
  {
    var y :| y in s;
    if s == {y} {
      assert IsMin(s, y);
    } else {
      MinExists(s - {y});
      var m :| IsMin(s - {y}, m);
      LesserBound(s, y, m);
    }
  }

  /** The lesser of `y` and the least element of the rest is least in `s`. */
  lemma LesserBound(s: set<nat>, y: nat, m: nat)
    requires y in s && IsMin(s - {y}, m)
    ensures IsMin(s, if y < m then y else m)
  {
    forall x | x in s ensures (if y < m then y else m) <= x {
      if x != y { assert x in s - {y}; }
    }
  }

  /** Lines 181-184: the indices sorted by the integer stem, ascending. */
  function SortedIndices(s: set<nat>): (r: seq<nat>)
    ensures |r| == |s|
    ensures forall x :: x in r <==> x in s
    ensures forall i, j :: 0 <= i < j < |r| ==> r[i] < r[j]
    decreases s
  {
    if s == {} then []
    else
      var m := Min(s);
      [m] + SortedIndices(s - {m})
  }

  /** Sorting is determined by the set: any strictly increasing listing of the
      same indices is the sorted one. */
  lemma {:induction false} SortedUnique(s: set<nat>, r: seq<nat>)
    requires forall x :: x in r <==> x in s
    requires forall i, j :: 0 <= i < j < |r| ==> r[i] < r[j]
    ensures r == SortedIndices(s)
    decreases s
  {
    if r == [] {
      assert forall x :: x !in s;
      assert s == {};
    } else {
      assert r[0] in s;
      var m := Min(s);
      HeadIsMin(s, r);
      TailListsRest(s, r);
      SortedUnique(s - {m}, r[1..]);
      SortedCons(s, r);
    }
  }

  /** A listing headed by the minimum and followed by the sorted rest is the sorted listing. */
  lemma {:induction false} SortedCons(s: set<nat>, r: seq<nat>)
    requires s != {} && r != []
    requires r[0] == Min(s) && r[1..] == SortedIndices(s - {Min(s)})
    ensures r == SortedIndices(s)
  {
    assert SortedIndices(s) == [Min(s)] + SortedIndices(s - {Min(s)});
    assert r == [r[0]] + r[1..];
  }

  lemma HeadIsMin(s: set<nat>, r: seq<nat>)
    requires s != {}
    requires forall x :: x in r <==> x in s
    requires forall i, j :: 0 <= i < j < |r| ==> r[i] < r[j]
    ensures r != [] && r[0] == Min(s)
  {
    var m := Min(s);
    assert m in r;
    var k :| 0 <= k < |r| && r[k] == m;
    assert r[0] in s;
    assert forall j :: 0 <= j < |r| ==> r[0] <= r[j];
  }

  lemma TailListsRest(s: set<nat>, r: seq<nat>)
    requires r != [] && r[0] in s
    requires forall x :: x in r <==> x in s
    requires forall i, j :: 0 <= i < j < |r| ==> r[i] < r[j]
    ensures forall x :: x in r[1..] <==> x in s - {r[0]}
    ensures forall i, j :: 0 <= i < j < |r[1..]| ==> r[1..][i] < r[1..][j]
  {
    forall x ensures x in r[1..] <==> x in s - {r[0]} {
      if x in r[1..] {
        var k :| 0 <= k < |r[1..]| && r[1..][k] == x;
        assert r[0] < r[k + 1];
      }
      if x in s - {r[0]} {
        var k :| 0 <= k < |r| && r[k] == x;
        assert r[1..][k - 1] == x;
      }
    }
  }
}
