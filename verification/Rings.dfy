/** The ring after one member joins or leaves, without rebuilding it. */
module Rings {
  import opened Words
  import opened Names
  import opened Labels
  import opened Clusters

  /** A point after a member has been inserted at position `at`. */
  function ShiftUp(p: Point, at: nat): Point {
    if p.node >= at then p.(node := p.node + 1) else p
  }

  /** A point after the member at position `at` has gone. */
  function ShiftDown(p: Point, at: nat): Point {
    if p.node > at then p.(node := p.node - 1) else p
  }

  /** `retain(|point| point.node != at)`. */
  function Keep(s: seq<Point>, at: nat): seq<Point> {
    if s == [] then []
    else Keep(s[..|s| - 1], at) + (if s[|s| - 1].node != at then [s[|s| - 1]] else [])
  }

  lemma {:induction false} KeepHolds(s: seq<Point>, at: nat, p: Point)
    ensures multiset(Keep(s, at))[p] == if p.node != at then multiset(s)[p] else 0
    ensures p in Keep(s, at) <==> p in s && p.node != at
  {
    if s != [] {
      KeepHolds(s[..|s| - 1], at, p);
      assert s == s[..|s| - 1] + [s[|s| - 1]];
    }
  }

  lemma {:induction false} KeepSorted(s: seq<Point>, at: nat)
    requires SortedPoints(s)
    ensures SortedPoints(Keep(s, at))
  {
    if s != [] {
      var t, last := s[..|s| - 1], s[|s| - 1];
      KeepSorted(t, at);
      forall p | p in Keep(t, at) ensures PointLe(p, last) {
        KeepHolds(t, at, p);
      }
    }
  }

  ghost function PointsOf(s: seq<Point>, at: nat): set<nat> {
    set k: nat | k < |s| && s[k].node == at
  }

  lemma {:induction false} KeepDrops(s: seq<Point>, at: nat)
    ensures |Keep(s, at)| + |PointsOf(s, at)| == |s|
  {
    if s != [] {
      var m := |s| - 1;
      KeepDrops(s[..m], at);
      assert PointsOf(s, at) == PointsOf(s[..m], at) + if s[m].node == at then {m} else {};
    } else {
      assert PointsOf(s, at) == {};
    }
  }

  /** Every member has as many points as its weight times the density, cut at the top of a u32. */
  lemma MemberPoints(c: Cluster, ms: seq<Name>, ring: seq<Point>, i: nat)
    requires Lists(c, ms) && IsRing(c, ms, ring) && i < |ms|
    ensures ms[i] in c.nodes && |PointsOf(ring, i)| == Min(c.ppw * c.nodes[ms[i]].weight, 0xffff_ffff)
  {
    KeepDrops(ring, i);
    KeptPlaces(c, ms, i, ring);
    PlacesSplit(c, ms, i);
    var kept := Keep(ring, i);
    assert |kept| == |Named(ms, kept)| == |multiset(Named(ms, kept))| == |multiset(Places(c, DropAt(ms, i)))|;
    assert |ring| == |Named(ms, ring)| == |multiset(Named(ms, ring))| == |multiset(Places(c, ms))|;
  }

  /** Points in the order of the labels they are hashed from. */
  ghost predicate RawPoints(c: Cluster, n: Name, at: nat, s: seq<Point>) {
    n in c.nodes && |s| == PointCount(c, n) &&
    forall k :: 0 <= k < |s| ==> s[k] == Point(c.h(Label(n, k)), at)
  }

  lemma NamedConcat(ms: seq<Name>, s: seq<Point>, t: seq<Point>)
    requires InRange(s, |ms|) && InRange(t, |ms|)
    ensures InRange(s + t, |ms|)
    ensures Named(ms, s + t) == Named(ms, s) + Named(ms, t)
  {
  }

  lemma RawIsPlaces(c: Cluster, ms: seq<Name>, at: nat, s: seq<Point>)
    requires at < |ms| && RawPoints(c, ms[at], at, s)
    ensures InRange(s, |ms|) && Named(ms, s) == PlacesOf(c, ms[at])
  {
  }

  lemma SortedIsRing(c: Cluster, ms: seq<Name>, raw: seq<Point>, ring: seq<Point>)
    requires Lists(c, ms) && InRange(raw, |ms|) && multiset(Named(ms, raw)) == multiset(Places(c, ms))
    requires SortedPoints(ring) && multiset(ring) == multiset(raw)
    ensures IsRing(c, ms, ring)
  {
    forall i | 0 <= i < |ring| ensures ring[i].node < |ms| {
      assert ring[i] in multiset(raw);
    }
    AscendingIsDistinct(ms);
    NamedPermutes(ms, ring, raw);
  }

  lemma ShiftedNames(ms: seq<Name>, at: nat, r: seq<Point>, s: seq<Point>)
    requires at < |ms| && InRange(r, |ms| - 1) && |s| == |r|
    requires forall k :: 0 <= k < |r| ==> s[k] == ShiftUp(r[k], at)
    ensures InRange(s, |ms|) && Named(ms, s) == Named(DropAt(ms, at), r)
  {
  }

  /** Renumbering the old points and merging in the sorted new ones gives the ring that a full
      rebuild would: `d` is `c` with the member at `at` added. */
  lemma AdmittedIsRing(c: Cluster, d: Cluster, ms: seq<Name>, at: nat, ring: seq<Point>,
                       shifted: seq<Point>, raw: seq<Point>, merged: seq<Point>)
    requires at < |ms| && Lists(d, ms) && Lists(c, DropAt(ms, at))
    requires SameWeights(c, d, c.nodes.Keys)
    requires IsRing(c, DropAt(ms, at), ring)
    requires |shifted| == |ring| && forall k :: 0 <= k < |ring| ==> shifted[k] == ShiftUp(ring[k], at)
    requires RawPoints(d, ms[at], at, raw)
    requires SortedPoints(merged) && multiset(merged) == multiset(shifted) + multiset(raw)
    ensures IsRing(d, ms, merged)
  {
    ShiftedNames(ms, at, ring, shifted);
    RawIsPlaces(d, ms, at, raw);
    NamedConcat(ms, shifted, raw);
    PlacesSplit(d, ms, at);
    PlacesAgree(c, d, DropAt(ms, at));
    SortedIsRing(d, ms, shifted + raw, merged);
  }

  lemma ShiftUpSorted(r: seq<Point>, at: nat, s: seq<Point>)
    requires SortedPoints(r) && |s| == |r|
    requires forall k :: 0 <= k < |r| ==> s[k] == ShiftUp(r[k], at)
    ensures SortedPoints(s)
  {
  }

  lemma KeptNames(ms: seq<Name>, at: nat, kept: seq<Point>, s: seq<Point>)
    requires at < |ms| && InRange(kept, |ms|) && |s| == |kept|
    requires forall k :: 0 <= k < |s| ==> kept[k].node != at && s[k] == ShiftDown(kept[k], at)
    ensures InRange(s, |ms| - 1) && Named(DropAt(ms, at), s) == Named(ms, kept)
  {
  }

  /** Keeping the other members' points keeps exactly their places. */
  lemma KeptPlaces(c: Cluster, ms: seq<Name>, at: nat, ring: seq<Point>)
    requires at < |ms| && Lists(c, ms) && IsRing(c, ms, ring)
    ensures Elements(DropAt(ms, at)) <= c.nodes.Keys && InRange(Keep(ring, at), |ms|)
    ensures multiset(Named(ms, Keep(ring, at))) == multiset(Places(c, DropAt(ms, at)))
  {
    var kept, dropped := Keep(ring, at), DropAt(ms, at);
    AscendingIsDistinct(ms);
    forall k | 0 <= k < |kept| ensures kept[k].node < |ms| {
      KeepHolds(ring, at, kept[k]);
    }
    forall q: Place ensures multiset(Named(ms, kept))[q] == multiset(Places(c, dropped))[q] {
      KeptPlace(c, ms, at, ring, q);
    }
  }

  lemma KeptPlace(c: Cluster, ms: seq<Name>, at: nat, ring: seq<Point>, q: Place)
    requires at < |ms| && Lists(c, ms) && IsRing(c, ms, ring) && Distinct(ms)
    requires InRange(Keep(ring, at), |ms|)
    ensures Elements(DropAt(ms, at)) <= c.nodes.Keys
    ensures multiset(Named(ms, Keep(ring, at)))[q] == multiset(Places(c, DropAt(ms, at)))[q]
  {
    var kept, dropped := Keep(ring, at), DropAt(ms, at);
    PlacesSplit(c, ms, at);
    PlacesOfHolds(c, ms[at], q);
    PlacesHold(c, dropped, q);
    DropAtElements(ms, at);
    if q.name in ms {
      var j :| 0 <= j < |ms| && ms[j] == q.name;
      NamedCount(ms, kept, j, q.hash);
      NamedCount(ms, ring, j, q.hash);
      KeepHolds(ring, at, Point(q.hash, j));
    } else {
      assert q !in Named(ms, kept);
    }
  }

  /** Dropping one member's points and renumbering the rest gives the ring of the membership
      without it: `d` is `c` with the member at `at` removed. */
  lemma RetiredIsRing(c: Cluster, d: Cluster, ms: seq<Name>, at: nat, ring: seq<Point>, s: seq<Point>)
    requires at < |ms| && Lists(c, ms) && Lists(d, DropAt(ms, at))
    requires SameWeights(c, d, d.nodes.Keys)
    requires IsRing(c, ms, ring)
    requires |s| == |Keep(ring, at)| && forall k :: 0 <= k < |s| ==> s[k] == ShiftDown(Keep(ring, at)[k], at)
    ensures IsRing(d, DropAt(ms, at), s)
  {
    var kept := Keep(ring, at);
    forall k | 0 <= k < |kept| ensures kept[k].node != at {
      KeepHolds(ring, at, kept[k]);
    }
    KeptPlaces(c, ms, at, ring);
    KeptNames(ms, at, kept, s);
    PlacesAgree(c, d, DropAt(ms, at));
    KeepSorted(ring, at);
    ShiftDownSorted(kept, at, s);
  }

  lemma ShiftDownSorted(r: seq<Point>, at: nat, s: seq<Point>)
    requires SortedPoints(r) && |s| == |r|
    requires forall k :: 0 <= k < |r| ==> r[k].node != at && s[k] == ShiftDown(r[k], at)
    ensures SortedPoints(s)
  {
  }

  ghost predicate AllBelow(s: seq<Point>, p: Point) {
    forall k :: 0 <= k < |s| ==> PointLe(s[k], p)
  }

  /** What is left of a run, from `i` on, is not below anything merged so far. */
  ghost predicate Ahead(s: seq<Point>, run: seq<Point>, i: nat) {
    i < |run| ==> AllBelow(s, run[i])
  }

  /** Taking the lesser head keeps the merge in order and ahead of neither run. */
  lemma Appended(s: seq<Point>, run: seq<Point>, i: nat, other: seq<Point>, j: nat)
    requires i < |run| && j <= |other| && SortedPoints(run) && SortedPoints(s)
    requires AllBelow(s, run[i]) && Ahead(s, other, j)
    requires j < |other| ==> PointLe(run[i], other[j])
    ensures SortedPoints(s + [run[i]]) && Ahead(s + [run[i]], run, i + 1) && Ahead(s + [run[i]], other, j)
  {
  }

  lemma TakenOne(s: seq<Point>, run: seq<Point>, i: nat)
    requires i < |run|
    ensures multiset(run[..i + 1]) == multiset(run[..i]) + multiset{run[i]}
    ensures multiset(s + [run[i]]) == multiset(s) + multiset{run[i]}
  {
    assert run[..i + 1] == run[..i] + [run[i]];
  }

  ghost predicate Merged(s: seq<Point>, held: seq<Point>, i: nat, arriving: seq<Point>, j: nat)
    requires i <= |held| && j <= |arriving|
  {
    SortedPoints(s) && Ahead(s, held, i) && Ahead(s, arriving, j) &&
    multiset(s) == multiset(held[..i]) + multiset(arriving[..j])
  }

  lemma MergedHeld(s: seq<Point>, held: seq<Point>, i: nat, arriving: seq<Point>, j: nat)
    requires i < |held| && j <= |arriving| && SortedPoints(held) && Merged(s, held, i, arriving, j)
    requires j < |arriving| ==> PointLe(held[i], arriving[j])
    ensures Merged(s + [held[i]], held, i + 1, arriving, j)
  {
    TakenOne(s, held, i);
  }

  lemma MergedArriving(s: seq<Point>, held: seq<Point>, i: nat, arriving: seq<Point>, j: nat)
    requires i <= |held| && j < |arriving| && SortedPoints(arriving) && Merged(s, held, i, arriving, j)
    requires i < |held| ==> PointLe(arriving[j], held[i])
    ensures Merged(s + [arriving[j]], held, i, arriving, j + 1)
  {
    Appended(s, arriving, j, held, i);
    TakenOne(s, arriving, j);
  }

  /** Merges two sorted runs, taking from the held one when the two are equal. */
  method MergeRuns(held: seq<Point>, arriving: seq<Point>) returns (merged: seq<Point>)
    requires SortedPoints(held) && SortedPoints(arriving)
    ensures SortedPoints(merged)
    ensures multiset(merged) == multiset(held) + multiset(arriving)
  {
    merged := [];
    var i, j := 0, 0;
    while i < |held| || j < |arriving|
      invariant i <= |held| && j <= |arriving|
      invariant Merged(merged, held, i, arriving, j)
      decreases |held| - i + |arriving| - j
    {
      if i < |held| && (j == |arriving| || PointLe(held[i], arriving[j])) {
        MergedHeld(merged, held, i, arriving, j);
        merged := merged + [held[i]];
        i := i + 1;
      } else {
        MergedArriving(merged, held, i, arriving, j);
        merged := merged + [arriving[j]];
        j := j + 1;
      }
    }
    assert held[..|held|] == held && arriving[..|arriving|] == arriving;
  }

  method RenumberUp(s: seq<Point>, inserted: nat) returns (t: seq<Point>)
    ensures |t| == |s| && forall k :: 0 <= k < |s| ==> t[k] == ShiftUp(s[k], inserted)
  {
    t := s;
    for k := 0 to |s|
      invariant |t| == |s|
      invariant forall j :: 0 <= j < k ==> t[j] == ShiftUp(s[j], inserted)
      invariant forall j :: k <= j < |s| ==> t[j] == s[j]
    {
      if t[k].node >= inserted {
        t := t[k := t[k].(node := t[k].node + 1)];
      }
    }
  }

  method RenumberDown(s: seq<Point>, retired: nat) returns (t: seq<Point>)
    ensures |t| == |s| && forall k :: 0 <= k < |s| ==> t[k] == ShiftDown(s[k], retired)
  {
    t := s;
    for k := 0 to |s|
      invariant |t| == |s|
      invariant forall j :: 0 <= j < k ==> t[j] == ShiftDown(s[j], retired)
      invariant forall j :: k <= j < |s| ==> t[j] == s[j]
    {
      if t[k].node > retired {
        t := t[k := t[k].(node := t[k].node - 1)];
      }
    }
  }

  method Retain(s: seq<Point>, retired: nat) returns (kept: seq<Point>)
    ensures kept == Keep(s, retired)
  {
    kept := [];
    for k := 0 to |s|
      invariant kept == Keep(s[..k], retired)
    {
      assert s[..k + 1][..k] == s[..k];
      if s[k].node != retired {
        kept := kept + [s[k]];
      }
    }
    assert s[..|s|] == s;
  }

  /** One node's points, in the order of their labels. */
  method NodePoints(hash: seq<Byte> -> U64, ppw: U32, name: Name, weight: U32, index: U32) returns (points: seq<Point>)
    ensures |points| == SaturatingMul(ppw, weight)
    ensures forall k :: 0 <= k < |points| ==> points[k] == Point(hash(Label(name, k)), index)
  {
    var count := SaturatingMul(ppw, weight);
    points := [];
    for point := 0 to count
      invariant |points| == point
      invariant forall k :: 0 <= k < point ==> points[k] == Point(hash(Label(name, k)), index)
    {
      points := points + [Point(hash(Label(name, point)), index)];
    }
  }

  lemma PlacesAppend(c: Cluster, ms: seq<Name>, i: nat)
    requires i < |ms| && Elements(ms) <= c.nodes.Keys
    ensures Elements(ms[..i]) <= c.nodes.Keys && Elements(ms[..i + 1]) <= c.nodes.Keys && ms[i] in c.nodes
    ensures Places(c, ms[..i + 1]) == Places(c, ms[..i]) + PlacesOf(c, ms[i])
  {
    assert ms[..i + 1] == ms[..i] + [ms[i]];
    PlacesConcat(c, ms[..i], [ms[i]]);
  }

  /** The points of the first `i` members, not yet sorted. */
  ghost predicate Unsorted(c: Cluster, ms: seq<Name>, i: nat, raw: seq<Point>)
    requires i <= |ms| && Elements(ms) <= c.nodes.Keys
  {
    InRange(raw, |ms|) && Elements(ms[..i]) <= c.nodes.Keys && Named(ms, raw) == Places(c, ms[..i])
  }

  lemma UnsortedOneMore(c: Cluster, ms: seq<Name>, i: nat, raw: seq<Point>, points: seq<Point>)
    requires i < |ms| && Elements(ms) <= c.nodes.Keys
    requires Unsorted(c, ms, i, raw) && RawPoints(c, ms[i], i, points)
    ensures Unsorted(c, ms, i + 1, raw + points)
  {
    RawIsPlaces(c, ms, i, points);
    NamedConcat(ms, raw, points);
    PlacesAppend(c, ms, i);
  }

  /** Every point of every member, then sorted. */
  method FullRing(hash: seq<Byte> -> U64, ppw: U32, nodes: map<Name, Node>, members: seq<Name>)
    returns (ring: seq<Point>)
    requires Lists(Cluster(hash, ppw, nodes), members)
    ensures |members| <= U32_SIZE ==> IsRing(Cluster(hash, ppw, nodes), members, ring)
  {
    ghost var c := Cluster(hash, ppw, nodes);
    var raw: seq<Point> := [];
    for index := 0 to |members|
      invariant |members| <= U32_SIZE ==> Unsorted(c, members, index, raw)
    {
      assert members[index] in Elements(members);
      var points := NodePoints(hash, ppw, members[index], nodes[members[index]].weight, AsU32(index));
      if |members| <= U32_SIZE {
        UnsortedOneMore(c, members, index, raw, points);
      }
      raw := raw + points;
    }
    assert members[..|members|] == members;
    ring := SortPoints(raw);
    if |members| <= U32_SIZE {
      SortedIsRing(c, members, raw, ring);
    }
  }

  /** From the ring of the members of `keys` other than the one at `position`, the ring of them
      all, while a u32 can number them. */
  method AdmitPoints(hash: seq<Byte> -> U64, ppw: U32, nodes: map<Name, Node>, keys: seq<Name>, position: nat,
                     ring: seq<Point>, ghost c: Cluster) returns (merged: seq<Point>)
    requires position < |keys| && Lists(Cluster(hash, ppw, nodes), keys)
    requires Lists(c, DropAt(keys, position)) && SameWeights(c, Cluster(hash, ppw, nodes), c.nodes.Keys)
    requires IsRing(c, DropAt(keys, position), ring)
    ensures |keys| <= U32_SIZE ==> IsRing(Cluster(hash, ppw, nodes), keys, merged)
  {
    var inserted := AsU32(position);
    var name := keys[position];
    assert name in Elements(keys);
    var shifted := RenumberUp(ring, inserted);
    ShiftUpSorted(ring, inserted, shifted);
    var raw := NodePoints(hash, ppw, name, nodes[name].weight, inserted);
    merged := MergeRuns(shifted, SortPoints(raw));
    if |keys| <= U32_SIZE {
      AdmittedIsRing(c, Cluster(hash, ppw, nodes), keys, position, ring, shifted, raw, merged);
    }
  }

  /** From the ring of `c`, the ring of `d`, which is `c` without the member at `position`. */
  method RetirePoints(ring: seq<Point>, position: nat, ghost c: Cluster, ghost d: Cluster, ghost ms: seq<Name>)
    returns (rest: seq<Point>)
    requires position < |ms| && Lists(c, ms) && Lists(d, DropAt(ms, position))
    requires SameWeights(c, d, d.nodes.Keys) && IsRing(c, ms, ring)
    ensures |ms| <= U32_SIZE ==> IsRing(d, DropAt(ms, position), rest)
  {
    var retired := AsU32(position);
    rest := Retain(ring, retired);
    rest := RenumberDown(rest, retired);
    if |ms| <= U32_SIZE {
      RetiredIsRing(c, d, ms, position, ring, rest);
    }
  }
}
