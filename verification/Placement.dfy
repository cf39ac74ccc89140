/** Which node holds a hash: the nearest live point clockwise, and the order all the others
    are met in. */
module Placement {
  import opened Words
  import opened Names
  import opened Labels
  import opened Clusters
  import opened RingIndex

  // ---- Distance round the ring ----

  /** How far `a` lies clockwise of `x`, modulo 2^64. */
  function Dist(x: U64, a: U64): U64 {
    if a >= x then a - x else a + U64_SIZE - x
  }

  /** `p` is met before `q` by a walk from `x`: nearer, or as near and of the lesser name. */
  ghost predicate Closer(x: U64, p: Place, q: Place) {
    Dist(x, p.hash) < Dist(x, q.hash) || (p.hash == q.hash && Lt(p.name, q.name))
  }

  lemma CloserAsymmetric(x: U64, p: Place, q: Place)
    requires Closer(x, p, q)
    ensures !Closer(x, q, p) && p != q
  {
    LtIrreflexive(p.name);
    if p.hash == q.hash && Lt(q.name, p.name) {
      LtTransitive(p.name, q.name, p.name);
    }
  }

  // ---- What placement means, said of the membership alone ----

  ghost function LiveNames(c: Cluster): set<Name> {
    set n | n in c.nodes && c.nodes[n].state.Live?
  }

  ghost predicate LiveOn(c: Cluster, p: Place) {
    On(c, p) && p.name in LiveNames(c)
  }

  /** `n` holds `x`: some live point of `n` is met before every other live point. */
  ghost predicate Owns(c: Cluster, x: U64, n: Name) {
    exists p :: OwnsAt(c, x, n, p)
  }

  ghost predicate OwnsAt(c: Cluster, x: U64, n: Name, p: Place) {
    LiveOn(c, p) && p.name == n && forall q :: LiveOn(c, q) ==> q == p || Closer(x, p, q)
  }

  lemma OwnsUnique(c: Cluster, x: U64, n: Name, m: Name)
    requires Owns(c, x, n) && Owns(c, x, m)
    ensures n == m
  {
    var p :| OwnsAt(c, x, n, p);
    var q :| OwnsAt(c, x, m, q);
    if p != q {
      CloserAsymmetric(x, p, q);
      assert false;
    }
  }

  /** A walk from `x` meets `n` before it meets `m`. */
  ghost predicate Before(c: Cluster, x: U64, n: Name, m: Name) {
    exists p :: BeforeAt(c, x, n, m, p)
  }

  ghost predicate BeforeAt(c: Cluster, x: U64, n: Name, m: Name, p: Place) {
    On(c, p) && p.name == n && forall q :: On(c, q) && q.name == m ==> Closer(x, p, q)
  }

  /** `o` lists every live node once, in the order a walk from `x` first meets them. */
  ghost predicate IsWalk(c: Cluster, x: U64, o: seq<Name>) {
    ListsLive(c, o) && InOrder(c, x, o)
  }

  /** `o` has every live node once. */
  ghost predicate ListsLive(c: Cluster, o: seq<Name>) {
    Distinct(o) && Elements(o) == LiveNames(c)
  }

  ghost predicate InOrder(c: Cluster, x: U64, o: seq<Name>) {
    forall i, j :: 0 <= i < j < |o| ==> Before(c, x, o[i], o[j])
  }

  lemma InOrderAppend(c: Cluster, x: U64, o: seq<Name>, n: Name)
    requires InOrder(c, x, o)
    requires forall i :: 0 <= i < |o| ==> Before(c, x, o[i], n)
    ensures InOrder(c, x, o + [n])
  {
  }

  lemma BeforeAsymmetric(c: Cluster, x: U64, n: Name, m: Name)
    requires Before(c, x, n, m)
    ensures !Before(c, x, m, n)
  {
    if Before(c, x, m, n) {
      var p :| BeforeAt(c, x, n, m, p);
      var q :| BeforeAt(c, x, m, n, q);
      CloserAsymmetric(x, p, q);
      assert false;
    }
  }

  /** There is only one such order. */
  lemma WalkUnique(c: Cluster, x: U64, o: seq<Name>, t: seq<Name>)
    requires IsWalk(c, x, o) && IsWalk(c, x, t)
    ensures o == t
  {
    DistinctCount(o);
    DistinctCount(t);
    forall k | 0 <= k < |o| ensures o[k] == t[k] {
      WalkAgrees(c, x, o, t, k);
    }
  }

  lemma {:induction false} WalkAgrees(c: Cluster, x: U64, o: seq<Name>, t: seq<Name>, k: nat)
    requires IsWalk(c, x, o) && IsWalk(c, x, t)
    requires k < |o| == |t|
    ensures forall i :: 0 <= i <= k ==> o[i] == t[i]
  {
    if k > 0 {
      WalkAgrees(c, x, o, t, k - 1);
    }
    assert o[k] in Elements(t) && t[k] in Elements(o);
    var j :| 0 <= j < |t| && t[j] == o[k];
    var i :| 0 <= i < |o| && o[i] == t[k];
    if i > k && j > k {
      BeforeAsymmetric(c, x, o[k], t[k]);
      assert false;
    }
  }

  // ---- The same, said of the ring ----

  ghost predicate LiveFlags(c: Cluster, ms: seq<Name>, live: seq<bool>)
    requires Lists(c, ms)
  {
    |live| == |ms| &&
    forall i :: 0 <= i < |ms| ==> ms[i] in Elements(ms) && live[i] == c.nodes[ms[i]].state.Live?
  }

  /** The member table, the liveness and the ring are those of the membership. */
  ghost predicate Placed(c: Cluster, ms: seq<Name>, live: seq<bool>, ring: seq<Point>) {
    WellFormed(c) && Lists(c, ms) && LiveFlags(c, ms, live) && IsRing(c, ms, ring)
  }

  /** `(start + step) % points`. */
  function Around(start: nat, step: nat, points: nat): nat
    requires points > 0
  {
    (start + step) % points
  }

  lemma AroundIs(start: nat, step: nat, points: nat)
    requires start < points && step < points
    ensures Around(start, step, points) == if start + step < points then start + step else start + step - points
  {
  }

  /** The step at which a walk from `start` stands on index `i`. */
  lemma AroundReaches(start: nat, i: nat, points: nat) returns (step: nat)
    requires start < points && i < points
    ensures step < points && Around(start, step, points) == i
  {
    step := if i >= start then i - start else i + points - start;
    AroundIs(start, step, points);
  }

  /** Points come in order of distance from `x`, and as near ones in order of member. */
  lemma StepsInOrder(ring: seq<Point>, x: U64, i: nat, j: nat)
    requires SortedPoints(ring) && i < j < |ring|
    ensures
      var p := ring[Around(Successor(ring, x), i, |ring|)];
      var q := ring[Around(Successor(ring, x), j, |ring|)];
      Dist(x, p.hash) < Dist(x, q.hash) || (p.hash == q.hash && p.node <= q.node)
  {
    var lb := LowerBound(ring, x);
    var start := Successor(ring, x);
    AroundIs(start, i, |ring|);
    AroundIs(start, j, |ring|);
    assert forall k :: lb <= k < |ring| ==> PointLe(ring[lb], ring[k]) || k == lb;
    assert forall k :: lb <= k < |ring| ==> ring[k].hash >= x;
  }

  ghost function PlaceAt(ms: seq<Name>, ring: seq<Point>, start: nat, step: nat): Place
    requires InRange(ring, |ms|) && ring != []
  {
    var p := ring[Around(start, step, |ring|)];
    Place(p.hash, ms[p.node])
  }

  lemma StepsCloser(c: Cluster, ms: seq<Name>, ring: seq<Point>, x: U64, i: nat, j: nat)
    requires Lists(c, ms) && IsRing(c, ms, ring) && i < j < |ring|
    ensures
      var start := Successor(ring, x);
      var p, q := PlaceAt(ms, ring, start, i), PlaceAt(ms, ring, start, j);
      p == q || Closer(x, p, q)
  {
    StepsInOrder(ring, x, i, j);
  }

  predicate LiveStep(live: seq<bool>, ring: seq<Point>, start: nat, step: nat)
    requires ring != [] && InRange(ring, |live|)
  {
    live[ring[Around(start, step, |ring|)].node]
  }

  lemma StepIsOn(c: Cluster, ms: seq<Name>, live: seq<bool>, ring: seq<Point>, start: nat, step: nat)
    requires Placed(c, ms, live, ring) && ring != []
    ensures On(c, PlaceAt(ms, ring, start, step))
    ensures LiveStep(live, ring, start, step) <==> LiveOn(c, PlaceAt(ms, ring, start, step))
  {
    var i := Around(start, step, |ring|);
    RingHolds(c, ms, ring, Named(ms, ring)[i]);
  }

  lemma OnHasStep(c: Cluster, ms: seq<Name>, ring: seq<Point>, start: nat, p: Place) returns (step: nat)
    requires Lists(c, ms) && IsRing(c, ms, ring) && On(c, p)
    requires start < |ring|
    ensures step < |ring| && PlaceAt(ms, ring, start, step) == p
  {
    RingHolds(c, ms, ring, p);
    var i :| 0 <= i < |ring| && Named(ms, ring)[i] == p;
    step := AroundReaches(start, i, |ring|);
  }

  /** The first live point a walk meets is the owner's. */
  lemma FirstLiveOwns(c: Cluster, ms: seq<Name>, live: seq<bool>, ring: seq<Point>, x: U64, step: nat)
    requires Placed(c, ms, live, ring) && step < |ring|
    requires LiveStep(live, ring, Successor(ring, x), step)
    requires forall k :: 0 <= k < step ==> !LiveStep(live, ring, Successor(ring, x), k)
    ensures Owns(c, x, PlaceAt(ms, ring, Successor(ring, x), step).name)
  {
    var start := Successor(ring, x);
    var p := PlaceAt(ms, ring, start, step);
    StepIsOn(c, ms, live, ring, start, step);
    forall q | LiveOn(c, q) ensures q == p || Closer(x, p, q) {
      var k := OnHasStep(c, ms, ring, start, q);
      StepIsOn(c, ms, live, ring, start, k);
      if step < k {
        StepsCloser(c, ms, ring, x, step, k);
      }
    }
    assert OwnsAt(c, x, p.name, p);
  }

  /** The live nodes met in the first `k` steps, each where it is first met. */
  ghost function Walk(ms: seq<Name>, live: seq<bool>, ring: seq<Point>, start: nat, k: nat): seq<Name>
    requires |live| == |ms| && InRange(ring, |ms|) && ring != []
  {
    if k == 0 then []
    else
      var w := Walk(ms, live, ring, start, k - 1);
      var n := PlaceAt(ms, ring, start, k - 1).name;
      if LiveStep(live, ring, start, k - 1) && n !in w then w + [n] else w
  }

  lemma {:induction false} WalkHolds(ms: seq<Name>, live: seq<bool>, ring: seq<Point>, start: nat, k: nat, n: Name)
    requires |live| == |ms| && InRange(ring, |ms|) && ring != []
    ensures n in Walk(ms, live, ring, start, k) <==>
            exists j :: 0 <= j < k && LiveStep(live, ring, start, j) && PlaceAt(ms, ring, start, j).name == n
    decreases k
  {
    if k > 0 {
      WalkHolds(ms, live, ring, start, k - 1, n);
    }
  }

  lemma {:induction false} WalkDistinct(ms: seq<Name>, live: seq<bool>, ring: seq<Point>, start: nat, k: nat)
    requires |live| == |ms| && InRange(ring, |ms|) && ring != []
    ensures Distinct(Walk(ms, live, ring, start, k))
    decreases k
  {
    if k > 0 {
      WalkDistinct(ms, live, ring, start, k - 1);
    }
  }

  lemma {:induction false} WalkExtends(ms: seq<Name>, live: seq<bool>, ring: seq<Point>, start: nat, j: nat, k: nat)
    requires |live| == |ms| && InRange(ring, |ms|) && ring != [] && j <= k
    ensures Walk(ms, live, ring, start, j) <= Walk(ms, live, ring, start, k)
    decreases k
  {
    if j < k {
      WalkExtends(ms, live, ring, start, j, k - 1);
    }
  }

  /** A node first met at step `k` is met after every node met earlier. */
  lemma LaterStepLater(c: Cluster, ms: seq<Name>, live: seq<bool>, ring: seq<Point>, x: U64, k: nat, m: Name)
    requires Placed(c, ms, live, ring) && k < |ring|
    requires LiveStep(live, ring, Successor(ring, x), k)
    requires m in Walk(ms, live, ring, Successor(ring, x), k)
    requires PlaceAt(ms, ring, Successor(ring, x), k).name !in Walk(ms, live, ring, Successor(ring, x), k)
    ensures Before(c, x, m, PlaceAt(ms, ring, Successor(ring, x), k).name)
  {
    var start := Successor(ring, x);
    var n := PlaceAt(ms, ring, start, k).name;
    WalkHolds(ms, live, ring, start, k, m);
    WalkHolds(ms, live, ring, start, k, n);
    var j :| 0 <= j < k && LiveStep(live, ring, start, j) && PlaceAt(ms, ring, start, j).name == m;
    var p := PlaceAt(ms, ring, start, j);
    StepIsOn(c, ms, live, ring, start, j);
    forall q | On(c, q) && q.name == n ensures Closer(x, p, q) {
      var t := OnHasStep(c, ms, ring, start, q);
      StepIsOn(c, ms, live, ring, start, t);
      StepsCloser(c, ms, ring, x, j, t);
    }
    assert BeforeAt(c, x, m, n, p);
  }

  lemma {:induction false} WalkInOrder(c: Cluster, ms: seq<Name>, live: seq<bool>, ring: seq<Point>, x: U64, k: nat)
    requires Placed(c, ms, live, ring) && k <= |ring| && ring != []
    ensures InOrder(c, x, Walk(ms, live, ring, Successor(ring, x), k))
    decreases k
  {
    if k > 0 {
      var start := Successor(ring, x);
      WalkInOrder(c, ms, live, ring, x, k - 1);
      var w := Walk(ms, live, ring, start, k - 1);
      var n := PlaceAt(ms, ring, start, k - 1).name;
      if LiveStep(live, ring, start, k - 1) && n !in w {
        AllBefore(c, ms, live, ring, x, k - 1);
        assert Walk(ms, live, ring, start, k) == w + [n];
        InOrderAppend(c, x, w, n);
      } else {
        assert Walk(ms, live, ring, start, k) == w;
      }
    }
  }

  lemma AllBefore(c: Cluster, ms: seq<Name>, live: seq<bool>, ring: seq<Point>, x: U64, k: nat)
    requires Placed(c, ms, live, ring) && k < |ring|
    requires LiveStep(live, ring, Successor(ring, x), k)
    requires PlaceAt(ms, ring, Successor(ring, x), k).name !in Walk(ms, live, ring, Successor(ring, x), k)
    ensures
      var w := Walk(ms, live, ring, Successor(ring, x), k);
      forall i :: 0 <= i < |w| ==> Before(c, x, w[i], PlaceAt(ms, ring, Successor(ring, x), k).name)
  {
    var w := Walk(ms, live, ring, Successor(ring, x), k);
    forall i | 0 <= i < |w| ensures Before(c, x, w[i], PlaceAt(ms, ring, Successor(ring, x), k).name) {
      LaterStepLater(c, ms, live, ring, x, k, w[i]);
    }
  }

  /** A full turn of the ring meets every live node, nearest first. */
  lemma FullWalk(c: Cluster, ms: seq<Name>, live: seq<bool>, ring: seq<Point>, x: U64)
    requires Placed(c, ms, live, ring) && ring != []
    ensures IsWalk(c, x, Walk(ms, live, ring, Successor(ring, x), |ring|))
  {
    TurnMeetsAll(c, ms, live, ring, Successor(ring, x));
    WalkInOrder(c, ms, live, ring, x, |ring|);
  }

  /** From whatever point it starts, a full turn meets every live node. */
  lemma TurnMeetsAll(c: Cluster, ms: seq<Name>, live: seq<bool>, ring: seq<Point>, start: nat)
    requires Placed(c, ms, live, ring) && start < |ring|
    ensures ListsLive(c, Walk(ms, live, ring, start, |ring|))
  {
    var o := Walk(ms, live, ring, start, |ring|);
    WalkDistinct(ms, live, ring, start, |ring|);
    forall n ensures n in o <==> n in LiveNames(c) {
      WalkHolds(ms, live, ring, start, |ring|, n);
      if n in LiveNames(c) {
        var p := HasPoint(c, n);
        var j := OnHasStep(c, ms, ring, start, p);
        StepIsOn(c, ms, live, ring, start, j);
      }
    }
  }

  // ---- The order as a function of the membership ----

  lemma PointsExist(c: Cluster, ms: seq<Name>) returns (raw: seq<Point>)
    requires Lists(c, ms)
    ensures InRange(raw, |ms|) && Named(ms, raw) == Places(c, ms)
  {
    var places := Places(c, ms);
    forall i | 0 <= i < |places| ensures places[i].name in ms {
      PlacesHold(c, ms, places[i]);
    }
    raw := seq(|places|, i requires 0 <= i < |places| => Point(places[i].hash, Index(ms, places[i].name)));
    assert Named(ms, raw) == places;
  }

  lemma RingExists(c: Cluster, ms: seq<Name>) returns (ring: seq<Point>)
    requires Lists(c, ms)
    ensures IsRing(c, ms, ring)
  {
    var raw := PointsExist(c, ms);
    ring := SortPoints(raw);
    forall i | 0 <= i < |ring| ensures ring[i].node < |ms| {
      assert ring[i] in multiset(raw);
    }
    AscendingIsDistinct(ms);
    NamedPermutes(ms, ring, raw);
  }

  lemma PlacedExists(c: Cluster) returns (ms: seq<Name>, live: seq<bool>, ring: seq<Point>)
    requires WellFormed(c)
    ensures Placed(c, ms, live, ring)
  {
    ms := Sorted(c.nodes.Keys);
    live := seq(|ms|, i requires 0 <= i < |ms| => c.nodes[ms[i]].state.Live?);
    ring := RingExists(c, ms);
  }

  lemma OrderExists(c: Cluster, x: U64) returns (o: seq<Name>)
    requires WellFormed(c)
    ensures IsWalk(c, x, o)
  {
    var ms, live, ring := PlacedExists(c);
    if ring == [] {
      o := [];
    } else {
      FullWalk(c, ms, live, ring, x);
      o := Walk(ms, live, ring, Successor(ring, x), |ring|);
    }
  }

  /** Every live node, in the order a walk from `x` meets them. */
  ghost function Order(c: Cluster, x: U64): (o: seq<Name>)
    requires WellFormed(c)
    ensures IsWalk(c, x, o)
    ensures |o| == |LiveNames(c)|
  {
    assert exists o :: IsWalk(c, x, o) by {
      var o := OrderExists(c, x);
    }
    var o :| IsWalk(c, x, o);
    DistinctCount(o);
    o
  }

  ghost function Owner(c: Cluster, x: U64): Option<Name>
    requires WellFormed(c)
  {
    var o := Order(c, x);
    if o == [] then None else Some(o[0])
  }

  lemma FirstLiveStep(live: seq<bool>, ring: seq<Point>, start: nat, k: nat) returns (step: nat)
    requires ring != [] && InRange(ring, |live|) && LiveStep(live, ring, start, k)
    ensures step <= k && LiveStep(live, ring, start, step)
    ensures forall j :: 0 <= j < step ==> !LiveStep(live, ring, start, j)
  {
    step := 0;
    while !LiveStep(live, ring, start, step)
      invariant step <= k
      invariant forall j :: 0 <= j < step ==> !LiveStep(live, ring, start, j)
      decreases k - step
    {
      step := step + 1;
    }
  }

  lemma {:induction false} WalkIdle(ms: seq<Name>, live: seq<bool>, ring: seq<Point>, start: nat, k: nat)
    requires |live| == |ms| && InRange(ring, |ms|) && ring != []
    requires forall j :: 0 <= j < k ==> !LiveStep(live, ring, start, j)
    ensures Walk(ms, live, ring, start, k) == []
    decreases k
  {
    if k > 0 {
      WalkIdle(ms, live, ring, start, k - 1);
    }
  }

  lemma WalkHead(ms: seq<Name>, live: seq<bool>, ring: seq<Point>, start: nat, step: nat, k: nat)
    requires |live| == |ms| && InRange(ring, |ms|) && ring != [] && step < k
    requires LiveStep(live, ring, start, step)
    requires forall j :: 0 <= j < step ==> !LiveStep(live, ring, start, j)
    ensures [PlaceAt(ms, ring, start, step).name] <= Walk(ms, live, ring, start, k)
  {
    WalkIdle(ms, live, ring, start, step);
  }

  /** The node at the first live step heads the order. */
  lemma FirstLiveHeads(c: Cluster, ms: seq<Name>, live: seq<bool>, ring: seq<Point>, x: U64, step: nat)
    requires Placed(c, ms, live, ring) && step < |ring|
    requires LiveStep(live, ring, Successor(ring, x), step)
    requires forall k :: 0 <= k < step ==> !LiveStep(live, ring, Successor(ring, x), k)
    ensures Owner(c, x) == Some(PlaceAt(ms, ring, Successor(ring, x), step).name)
  {
    var start := Successor(ring, x);
    var o := Walk(ms, live, ring, start, |ring|);
    WalkHead(ms, live, ring, start, step, |ring|);
    FullWalk(c, ms, live, ring, x);
    WalkUnique(c, x, Order(c, x), o);
  }

  /** The owner is the live node nearest clockwise, ties going to the lesser name; there is one
      exactly when some node is live. */
  lemma OwnerIsNearest(c: Cluster, x: U64)
    requires WellFormed(c)
    ensures forall n :: Owner(c, x) == Some(n) <==> Owns(c, x, n)
    ensures Owner(c, x) == None <==> LiveNames(c) == {}
  {
    if LiveNames(c) != {} {
      var ms, live, ring := PlacedExists(c);
      var m :| m in LiveNames(c);
      var p := HasPoint(c, m);
      var start := Successor(ring, x);
      var k := OnHasStep(c, ms, ring, start, p);
      StepIsOn(c, ms, live, ring, start, k);
      var step := FirstLiveStep(live, ring, start, k);
      FirstLiveOwns(c, ms, live, ring, x, step);
      FirstLiveHeads(c, ms, live, ring, x, step);
      forall n | Owns(c, x, n) ensures Owner(c, x) == Some(n) {
        OwnsUnique(c, x, n, Owner(c, x).value);
      }
    }
  }

  /** How many hashes a walk up from `x` passes before it comes to `a`. */
  function Ahead(x: U64, a: U64): nat {
    (a + 0x1_0000_0000_0000_0000 - x) % 0x1_0000_0000_0000_0000
  }

  /** Point `k` of `n` is met no later than point `j` of `m`; of two on one hash the lesser name is
      met first. */
  ghost predicate NotLater(c: Cluster, x: U64, n: Name, k: nat, m: Name, j: nat) {
    var a, b := c.h(Label(n, k)), c.h(Label(m, j));
    Ahead(x, a) < Ahead(x, b) || (a == b && (n == m || Lt(n, m)))
  }

  /** The point `k` of the live node `n` is met no later than any point of any live node. */
  ghost predicate NearestAt(c: Cluster, x: U64, n: Name, k: nat) {
    && n in c.nodes && c.nodes[n].state == Live && k < Min(c.ppw * c.nodes[n].weight, 0xffff_ffff)
    && (forall m, j ::
          m in c.nodes && c.nodes[m].state == Live && 0 <= j < Min(c.ppw * c.nodes[m].weight, 0xffff_ffff) ==>
          NotLater(c, x, n, k, m, j))
  }

  /** The owner, spelled out in labels and hashes. */
  lemma OwnerIsNearestLabel(c: Cluster, x: U64, n: Name)
    requires WellFormed(c)
    ensures Owner(c, x) == Some(n) <==> exists k: nat :: NearestAt(c, x, n, k)
  {
    OwnerIsNearest(c, x);
    if Owns(c, x, n) {
      var p :| OwnsAt(c, x, n, p);
      var k: nat :| k < PointCount(c, n) && c.h(Label(n, k)) == p.hash;
      NearestFromOwns(c, x, n, p, k);
    }
    forall k: nat | NearestAt(c, x, n, k) ensures Owns(c, x, n) {
      OwnsFromNearest(c, x, n, k);
    }
  }

  lemma NearestFromOwns(c: Cluster, x: U64, n: Name, p: Place, k: nat)
    requires OwnsAt(c, x, n, p) && k < PointCount(c, n) && c.h(Label(n, k)) == p.hash
    ensures NearestAt(c, x, n, k)
  {
    forall m, j | m in c.nodes && c.nodes[m].state == Live && 0 <= j < Min(c.ppw * c.nodes[m].weight, 0xffff_ffff)
      ensures NotLater(c, x, n, k, m, j)
    {
      var q := Place(c.h(Label(m, j)), m);
      assert LiveOn(c, q);
    }
  }

  lemma OwnsFromNearest(c: Cluster, x: U64, n: Name, k: nat)
    requires NearestAt(c, x, n, k)
    ensures OwnsAt(c, x, n, Place(c.h(Label(n, k)), n))
  {
    var p := Place(c.h(Label(n, k)), n);
    forall q | LiveOn(c, q) ensures q == p || Closer(x, p, q) {
      var j: nat :| j < PointCount(c, q.name) && c.h(Label(q.name, j)) == q.hash;
      assert NotLater(c, x, n, k, q.name, j);
    }
  }
}
