/** Membership and the ring it determines. */
module Clusters {
  import opened Words
  import opened Names
  import opened Labels

  datatype NodeState = Live | Down

  datatype Node = Node(name: Name, weight: U32, state: NodeState, zone: Option<Name>)

  /** A ring point as it is stored: the member by its position in name order. */
  datatype Point = Point(hash: U64, node: nat)

  /** The same point with the member by its name, which no renumbering changes. */
  datatype Place = Place(hash: U64, name: Name)

  /** What a topology is told: everything else in it is derived from these. The hash is any
      function at all, so every result below holds for colliding hashes too. */
  datatype Cluster = Cluster(h: seq<Byte> -> U64, ppw: U32, nodes: map<Name, Node>)

  ghost predicate WellFormed(c: Cluster) {
    c.ppw >= 1 &&
    forall n :: n in c.nodes ==>
      n != [] && c.nodes[n].name == n && c.nodes[n].weight >= 1 && c.nodes[n].zone != Some([])
  }

  ghost function PointCount(c: Cluster, n: Name): U32
    requires n in c.nodes
  {
    SaturatingMul(c.ppw, c.nodes[n].weight)
  }

  ghost function PlacesOf(c: Cluster, n: Name): (s: seq<Place>)
    requires n in c.nodes
    ensures |s| == PointCount(c, n)
  {
    seq(PointCount(c, n), i requires 0 <= i => Place(c.h(Label(n, i)), n))
  }

  ghost function Places(c: Cluster, names: seq<Name>): seq<Place>
    requires Elements(names) <= c.nodes.Keys
  {
    if names == [] then []
    else
      assert names[0] in Elements(names) && Elements(names[1..]) <= Elements(names);
      PlacesOf(c, names[0]) + Places(c, names[1..])
  }

  /** `ms` is the membership in iteration order. */
  ghost predicate Lists(c: Cluster, ms: seq<Name>) {
    Ascending(ms) && Elements(ms) == c.nodes.Keys
  }

  // ---- Order on points ----

  predicate PointLe(p: Point, q: Point) {
    p.hash < q.hash || (p.hash == q.hash && p.node <= q.node)
  }

  ghost predicate SortedPoints(s: seq<Point>) {
    forall i, j :: 0 <= i < j < |s| ==> PointLe(s[i], s[j])
  }

  ghost predicate InRange(s: seq<Point>, n: nat) {
    forall i :: 0 <= i < |s| ==> s[i].node < n
  }

  ghost function Named(ms: seq<Name>, s: seq<Point>): (r: seq<Place>)
    requires InRange(s, |ms|)
    ensures |r| == |s|
    ensures forall i :: 0 <= i < |s| ==> r[i] == Place(s[i].hash, ms[s[i].node])
  {
    seq(|s|, i requires 0 <= i < |s| => Place(s[i].hash, ms[s[i].node]))
  }

  /** The ring of a cluster: every member's every point, in order of hash and then of member. */
  ghost predicate IsRing(c: Cluster, ms: seq<Name>, ring: seq<Point>)
    requires Lists(c, ms)
  {
    InRange(ring, |ms|) && SortedPoints(ring) && multiset(Named(ms, ring)) == multiset(Places(c, ms))
  }

  // ---- Names and positions carry the same information ----

  lemma {:induction false} NamedCount(ms: seq<Name>, s: seq<Point>, i: nat, a: U64)
    requires Distinct(ms) && InRange(s, |ms|) && i < |ms|
    ensures multiset(Named(ms, s))[Place(a, ms[i])] == multiset(s)[Point(a, i)]
  {
    if s != [] {
      var t := s[..|s| - 1];
      var last := s[|s| - 1];
      NamedCount(ms, t, i, a);
      assert s == t + [last];
      assert Named(ms, s) == Named(ms, t) + [Place(last.hash, ms[last.node])];
      assert Place(last.hash, ms[last.node]) == Place(a, ms[i]) <==> last == Point(a, i);
    }
  }

  /** Rearranging the points rearranges their names, and nothing else does. */
  lemma NamedPermutes(ms: seq<Name>, s: seq<Point>, t: seq<Point>)
    requires Distinct(ms) && InRange(s, |ms|) && InRange(t, |ms|)
    ensures multiset(Named(ms, s)) == multiset(Named(ms, t)) <==> multiset(s) == multiset(t)
  {
    var ns, nt := multiset(Named(ms, s)), multiset(Named(ms, t));
    if multiset(s) == multiset(t) {
      forall q: Place ensures ns[q] == nt[q] {
        if q.name in ms {
          var i :| 0 <= i < |ms| && ms[i] == q.name;
          NamedCount(ms, s, i, q.hash);
          NamedCount(ms, t, i, q.hash);
        }
      }
    }
    if ns == nt {
      forall p: Point ensures multiset(s)[p] == multiset(t)[p] {
        if p.node < |ms| {
          NamedCount(ms, s, p.node, p.hash);
          NamedCount(ms, t, p.node, p.hash);
        }
      }
    }
  }

  lemma {:induction false} SortedUnique(s: seq<Point>, t: seq<Point>)
    requires SortedPoints(s) && SortedPoints(t) && multiset(s) == multiset(t)
    ensures s == t
  {
    assert |s| == |multiset(s)| == |multiset(t)| == |t|;
    if s != [] {
      assert s[0] in multiset(t) && t[0] in multiset(s);
      assert s[0] == t[0];
      assert s == [s[0]] + s[1..] && t == [t[0]] + t[1..];
      assert multiset(s[1..]) == multiset(s) - multiset{s[0]};
      assert multiset(t[1..]) == multiset(t) - multiset{t[0]};
      SortedUnique(s[1..], t[1..]);
    }
  }

  /** A membership has one ring. */
  lemma RingUnique(c: Cluster, ms: seq<Name>, r: seq<Point>, s: seq<Point>)
    requires Lists(c, ms) && IsRing(c, ms, r) && IsRing(c, ms, s)
    ensures r == s
  {
    AscendingIsDistinct(ms);
    NamedPermutes(ms, r, s);
    SortedUnique(r, s);
  }

  // ---- Places of a membership that gains or loses one member ----

  lemma {:induction false} PlacesConcat(c: Cluster, a: seq<Name>, b: seq<Name>)
    requires Elements(a) <= c.nodes.Keys && Elements(b) <= c.nodes.Keys
    ensures Elements(a + b) <= c.nodes.Keys
    ensures Places(c, a + b) == Places(c, a) + Places(c, b)
  {
    assert Elements(a + b) == Elements(a) + Elements(b);
    if a == [] {
      assert a + b == b;
    } else {
      assert a[0] in Elements(a) && Elements(a[1..]) <= Elements(a);
      PlacesConcat(c, a[1..], b);
      assert (a + b)[1..] == a[1..] + b;
    }
  }

  /** Places depend on names and weights only. */
  ghost predicate SameWeights(c: Cluster, d: Cluster, names: set<Name>) {
    c.h == d.h && c.ppw == d.ppw && names <= c.nodes.Keys && names <= d.nodes.Keys &&
    forall n :: n in names ==> c.nodes[n].weight == d.nodes[n].weight
  }

  lemma {:induction false} PlacesAgree(c: Cluster, d: Cluster, names: seq<Name>)
    requires SameWeights(c, d, Elements(names))
    ensures Places(c, names) == Places(d, names)
  {
    if names != [] {
      PlacesAgree(c, d, names[1..]);
    }
  }

  lemma SlicesWithin(ms: seq<Name>, keys: set<Name>, i: nat)
    requires Elements(ms) <= keys && i < |ms|
    ensures ms[i] in keys
    ensures Elements(ms[..i]) <= keys && Elements(ms[i + 1..]) <= keys && Elements(DropAt(ms, i)) <= keys
    ensures ms == ms[..i] + ([ms[i]] + ms[i + 1..])
  {
  }

  lemma PlacesSplit(c: Cluster, ms: seq<Name>, i: nat)
    requires Elements(ms) <= c.nodes.Keys && i < |ms|
    ensures ms[i] in c.nodes && Elements(DropAt(ms, i)) <= c.nodes.Keys
    ensures multiset(Places(c, ms)) == multiset(Places(c, DropAt(ms, i))) + multiset(PlacesOf(c, ms[i]))
    ensures |Places(c, ms)| == |Places(c, DropAt(ms, i))| + PointCount(c, ms[i])
  {
    SlicesWithin(ms, c.nodes.Keys, i);
    var a, b := ms[..i], ms[i + 1..];
    PlacesConcat(c, a, [ms[i]] + b);
    PlacesConcat(c, a, b);
  }

  /** Every member has at least one point. */
  lemma {:induction false} PlacesAtLeast(c: Cluster, names: seq<Name>)
    requires WellFormed(c) && Elements(names) <= c.nodes.Keys
    ensures |Places(c, names)| >= |names|
  {
    if names != [] {
      PlacesAtLeast(c, names[1..]);
    }
  }

  // ---- What is on the ring ----

  ghost predicate On(c: Cluster, p: Place) {
    p.name in c.nodes && exists i :: 0 <= i < PointCount(c, p.name) && c.h(Label(p.name, i)) == p.hash
  }

  lemma PlacesOfHolds(c: Cluster, n: Name, p: Place)
    requires n in c.nodes
    ensures p in PlacesOf(c, n) <==> p.name == n && On(c, p)
  {
    var s := PlacesOf(c, n);
    if p.name == n && On(c, p) {
      var i :| 0 <= i < PointCount(c, p.name) && c.h(Label(p.name, i)) == p.hash;
      assert s[i] == p;
    }
  }

  lemma {:induction false} PlacesHold(c: Cluster, names: seq<Name>, p: Place)
    requires Elements(names) <= c.nodes.Keys
    ensures p in Places(c, names) <==> p.name in names && On(c, p)
  {
    if names != [] {
      PlacesOfHolds(c, names[0], p);
      PlacesHold(c, names[1..], p);
    }
  }

  /** The ring holds exactly the points the membership calls for. */
  lemma RingHolds(c: Cluster, ms: seq<Name>, ring: seq<Point>, p: Place)
    requires Lists(c, ms) && IsRing(c, ms, ring)
    ensures On(c, p) <==> exists i :: 0 <= i < |ring| && Named(ms, ring)[i] == p
  {
    PlacesHold(c, ms, p);
    assert p in multiset(Named(ms, ring)) <==> p in multiset(Places(c, ms));
  }

  /** A hash is on the ring for a member exactly when one of its labels, numbered from 0 up to the
      product of density and weight, hashes to it. */
  lemma RingIsLabels(c: Cluster, ms: seq<Name>, ring: seq<Point>, n: Name, x: U64)
    requires Lists(c, ms) && IsRing(c, ms, ring) && n in c.nodes
    ensures (exists i :: 0 <= i < |ring| && ms[ring[i].node] == n && ring[i].hash == x) <==>
            exists k :: 0 <= k < Min(c.ppw * c.nodes[n].weight, 0xffff_ffff) && c.h(Label(n, k)) == x
  {
    RingHolds(c, ms, ring, Place(x, n));
  }

  lemma HasPoint(c: Cluster, n: Name) returns (p: Place)
    requires WellFormed(c) && n in c.nodes
    ensures On(c, p) && p.name == n
  {
    p := Place(c.h(Label(n, 0)), n);
  }

  /** What the weights and the density call for: their product for each member, cut at the top of a
      u32. */
  ghost function TotalPoints(c: Cluster, names: seq<Name>): nat
    requires Elements(names) <= c.nodes.Keys
  {
    if names == [] then 0
    else
      assert names[0] in Elements(names) && Elements(names[1..]) <= Elements(names);
      Min(c.ppw * c.nodes[names[0]].weight, 0xffff_ffff) + TotalPoints(c, names[1..])
  }

  lemma {:induction false} PlacesLength(c: Cluster, names: seq<Name>)
    requires Elements(names) <= c.nodes.Keys
    ensures |Places(c, names)| == TotalPoints(c, names)
  {
    if names != [] {
      PlacesLength(c, names[1..]);
    }
  }

  /** The ring is as long as that adds up to, and no member goes without a point. */
  lemma RingLength(c: Cluster, ms: seq<Name>, ring: seq<Point>)
    requires WellFormed(c) && Lists(c, ms) && IsRing(c, ms, ring)
    ensures |ring| == |Places(c, ms)| == TotalPoints(c, ms)
    ensures |ring| >= |ms|
  {
    assert |Named(ms, ring)| == |multiset(Named(ms, ring))| == |multiset(Places(c, ms))|;
    PlacesLength(c, ms);
    PlacesAtLeast(c, ms);
  }

  /** Points are in order of hash, and those that share a hash in order of member. */
  lemma RingInOrder(c: Cluster, ms: seq<Name>, ring: seq<Point>, i: nat, j: nat)
    requires Lists(c, ms) && IsRing(c, ms, ring) && i < j < |ring|
    ensures ring[i].hash < ring[j].hash || (ring[i].hash == ring[j].hash && ring[i].node <= ring[j].node)
  {
  }

  // ---- Sorting, for which the source calls the standard library ----

  function Insert(p: Point, s: seq<Point>): seq<Point> {
    if s == [] || PointLe(p, s[0]) then [p] + s else [s[0]] + Insert(p, s[1..])
  }

  lemma {:induction false} InsertPermutes(p: Point, s: seq<Point>)
    ensures multiset(Insert(p, s)) == multiset(s) + multiset{p}
  {
    if s != [] && !PointLe(p, s[0]) {
      InsertPermutes(p, s[1..]);
      assert s == [s[0]] + s[1..];
    }
  }

  lemma {:induction false} InsertSorts(p: Point, s: seq<Point>)
    requires SortedPoints(s)
    ensures SortedPoints(Insert(p, s))
  {
    if s == [] {
    } else if PointLe(p, s[0]) {
      PrependSorted(p, s);
    } else {
      var rest := Insert(p, s[1..]);
      InsertSorts(p, s[1..]);
      InsertPermutes(p, s[1..]);
      PrependSorted(s[0], rest);
    }
  }

  lemma PrependSorted(p: Point, s: seq<Point>)
    requires SortedPoints(s) && (s != [] ==> PointLe(p, s[0]))
    ensures SortedPoints([p] + s)
  {
  }

  function SortPoints(s: seq<Point>): (r: seq<Point>)
    ensures SortedPoints(r) && multiset(r) == multiset(s)
  {
    if s == [] then []
    else
      var rest := SortPoints(s[1..]);
      InsertPermutes(s[0], rest);
      InsertSorts(s[0], rest);
      assert s == [s[0]] + s[1..];
      Insert(s[0], rest)
  }
}
