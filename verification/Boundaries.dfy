/** The boundaries of two rings, and the stretches between them. */
module Boundaries {
  import opened Words
  import opened Clusters
  import opened RingIndex
  import opened HashRanges

  ghost predicate Increasing(s: seq<U64>) {
    forall i, j :: 0 <= i < j < |s| ==> s[i] < s[j]
  }

  ghost predicate HasHash(ring: seq<Point>, x: U64) {
    exists i :: 0 <= i < |ring| && ring[i].hash == x
  }

  /** `bounds` holds exactly the hashes of both rings, in order and once each. */
  ghost predicate BoundsOf(a: seq<Point>, b: seq<Point>, bounds: seq<U64>) {
    Increasing(bounds) && forall x: U64 :: x in bounds <==> HasHash(a, x) || HasHash(b, x)
  }

  /** Nothing merged so far is above what is left of a run. */
  ghost predicate NoneAbove(bounds: seq<U64>, run: seq<Point>, i: nat) {
    i < |run| ==> forall k :: 0 <= k < |bounds| ==> bounds[k] <= run[i].hash
  }

  ghost predicate Merging(a: seq<Point>, i: nat, b: seq<Point>, j: nat, bounds: seq<U64>)
    requires i <= |a| && j <= |b|
  {
    BoundsOf(a[..i], b[..j], bounds) && NoneAbove(bounds, a, i) && NoneAbove(bounds, b, j)
  }

  function PushNew(bounds: seq<U64>, x: U64): seq<U64> {
    if bounds != [] && bounds[|bounds| - 1] == x then bounds else bounds + [x]
  }

  lemma HasHashOneMore(ring: seq<Point>, i: nat, x: U64)
    requires i < |ring|
    ensures HasHash(ring[..i + 1], x) <==> HasHash(ring[..i], x) || ring[i].hash == x
  {
  }

  lemma MergingFirst(a: seq<Point>, i: nat, b: seq<Point>, j: nat, bounds: seq<U64>)
    requires SortedPoints(a) && i < |a| && j <= |b| && Merging(a, i, b, j, bounds)
    requires j < |b| ==> a[i].hash <= b[j].hash
    ensures Merging(a, i + 1, b, j, PushNew(bounds, a[i].hash))
  {
    var x := a[i].hash;
    forall y: U64 ensures y in PushNew(bounds, x) <==> HasHash(a[..i + 1], y) || HasHash(b[..j], y) {
      HasHashOneMore(a, i, y);
    }
  }

  lemma MergingSecond(a: seq<Point>, i: nat, b: seq<Point>, j: nat, bounds: seq<U64>)
    requires SortedPoints(b) && i <= |a| && j < |b| && Merging(a, i, b, j, bounds)
    requires i < |a| ==> b[j].hash <= a[i].hash
    ensures Merging(a, i, b, j + 1, PushNew(bounds, b[j].hash))
  {
    var x := b[j].hash;
    forall y: U64 ensures y in PushNew(bounds, x) <==> HasHash(a[..i], y) || HasHash(b[..j + 1], y) {
      HasHashOneMore(b, j, y);
    }
  }

  /** The hashes of two sorted rings, increasing, each once. */
  method MergeBounds(a: seq<Point>, b: seq<Point>) returns (bounds: seq<U64>)
    requires SortedPoints(a) && SortedPoints(b)
    ensures BoundsOf(a, b, bounds)
  {
    bounds := [];
    var i, j := 0, 0;
    while i < |a| || j < |b|
      invariant i <= |a| && j <= |b| && Merging(a, i, b, j, bounds)
      decreases |a| - i + |b| - j
    {
      if i < |a| && (j == |b| || a[i].hash <= b[j].hash) {
        MergingFirst(a, i, b, j, bounds);
        bounds := PushNew(bounds, a[i].hash);
        i := i + 1;
      } else {
        MergingSecond(a, i, b, j, bounds);
        bounds := PushNew(bounds, b[j].hash);
        j := j + 1;
      }
    }
    assert a[..|a|] == a && b[..|b|] == b;
  }

  // ---- Stretches ----

  /** Stretch `i` begins one past boundary `i - 1`, the last one for `i` of 0, and ends at boundary
      `i`. */
  function Stretch(bounds: seq<U64>, i: nat): HashRange
    requires i < |bounds|
  {
    var previous := if i == 0 then bounds[|bounds| - 1] else bounds[i - 1];
    HashRange(WrappingSucc(previous), bounds[i])
  }

  lemma StretchIs(bounds: seq<U64>, i: nat, x: U64)
    requires Increasing(bounds) && i < |bounds|
    ensures Pred(Stretch(bounds, i)) == if i == 0 then bounds[|bounds| - 1] else bounds[i - 1]
    ensures i > 0 ==> (Contains(Stretch(bounds, i), x) <==> bounds[i - 1] < x <= bounds[i])
    ensures i == 0 ==> (Contains(Stretch(bounds, i), x) <==> x > bounds[|bounds| - 1] || x <= bounds[0])
  {
  }

  /** The stretch a hash falls in. */
  ghost function StretchOf(bounds: seq<U64>, x: U64): (i: nat)
    requires bounds != []
    ensures i < |bounds|
  {
    var i := FirstAtOrAbove(bounds, x);
    if i == |bounds| then 0 else i
  }

  /** Every hash lies in one stretch and no other. */
  lemma StretchesPartition(bounds: seq<U64>, i: nat, x: U64)
    requires Increasing(bounds) && i < |bounds|
    ensures Contains(Stretch(bounds, i), x) <==> StretchOf(bounds, x) == i
  {
  }

  /** Within a stretch every lookup starts where a lookup for its end does. */
  lemma StretchSuccessor(ring: seq<Point>, bounds: seq<U64>, i: nat, x: U64)
    requires ring != [] && Increasing(bounds) && i < |bounds|
    requires forall y: U64 :: HasHash(ring, y) ==> y in bounds
    requires Contains(Stretch(bounds, i), x)
    ensures Successor(ring, x) == Successor(ring, bounds[i])
  {
    StretchIs(bounds, i, x);
    forall k | 0 <= k < |ring| ensures exists m :: 0 <= m < |bounds| && bounds[m] == ring[k].hash {
      assert HasHash(ring, ring[k].hash);
    }
    if i > 0 {
      LowerBoundIs(ring, x, LowerBound(ring, bounds[i]));
    }
  }

}
