/** Walking the boundaries of two rings together. */
module HandoffWalk {
  import opened Words
  import opened Names
  import opened Clusters
  import opened RingIndex
  import opened Placement
  import opened Lookups
  import opened Boundaries
  import opened Moves
  import opened Handoffs

  // ---- Which stretches move ----

  /** The moves of the first `n` stretches. */
  ghost predicate Classified(c: Cluster, d: Cluster, bounds: seq<U64>, n: nat, es: seq<Move>)
    requires WellFormed(c) && WellFormed(d) && bounds != []
  {
    && Chain(es, bounds[|bounds| - 1])
    && (es != [] ==> 0 < n <= |bounds| && es[|es| - 1].range.end <= bounds[n - 1])
    && (forall x: U64, from: Name, to: Name ::
          Carries(es, x, from, to) <==> StretchOf(bounds, x) < n && Moved(c, d, x) == Some((from, to)))
  }

  /** Neither membership changes owner within a stretch. */
  ghost predicate OneMove(c: Cluster, d: Cluster, bounds: seq<U64>, n: nat, m: Option<(Name, Name)>)
    requires WellFormed(c) && WellFormed(d) && bounds != []
  {
    forall x: U64 :: StretchOf(bounds, x) == n ==> Moved(c, d, x) == m
  }

  lemma ClassifiedStays(c: Cluster, d: Cluster, bounds: seq<U64>, n: nat, es: seq<Move>)
    requires WellFormed(c) && WellFormed(d) && Increasing(bounds) && n < |bounds|
    requires Classified(c, d, bounds, n, es) && OneMove(c, d, bounds, n, None)
    ensures Classified(c, d, bounds, n + 1, es)
  {
  }

  lemma ClassifiedMoves(c: Cluster, d: Cluster, bounds: seq<U64>, n: nat, es: seq<Move>, from: Name, to: Name)
    requires WellFormed(c) && WellFormed(d) && Increasing(bounds) && n < |bounds|
    requires Classified(c, d, bounds, n, es) && OneMove(c, d, bounds, n, Some((from, to)))
    ensures Classified(c, d, bounds, n + 1, es + [Move(Stretch(bounds, n), from, to)])
  {
    var e := Move(Stretch(bounds, n), from, to);
    ChainGrows(bounds, n, es, e);
    forall x: U64, f: Name, t: Name
      ensures Carries(es + [e], x, f, t) <==> StretchOf(bounds, x) < n + 1 && Moved(c, d, x) == Some((f, t))
    {
      CarriesAppend(es, e, x, f, t);
      StretchesPartition(bounds, n, x);
    }
  }

  lemma ChainGrows(bounds: seq<U64>, n: nat, es: seq<Move>, e: Move)
    requires Increasing(bounds) && n < |bounds| && e.range == Stretch(bounds, n)
    requires Chain(es, bounds[|bounds| - 1])
    requires es != [] ==> 0 < n && es[|es| - 1].range.end <= bounds[n - 1]
    ensures Chain(es + [e], bounds[|bounds| - 1])
  {
  }

  // ---- The walk ----

  /** The cursor has not passed the first point at or above the boundary. */
  ghost predicate CursorBefore(ring: seq<Point>, bounds: seq<U64>, index: nat, cursor: nat) {
    cursor <= |ring| && (index < |bounds| ==> forall j :: 0 <= j < cursor ==> ring[j].hash < bounds[index])
  }

  /** Steps a cursor to the point a boundary lands on. */
  method Advance(ring: seq<Point>, bounds: seq<U64>, index: nat, cursor: nat) returns (at: nat)
    requires Increasing(bounds) && index < |bounds| && CursorBefore(ring, bounds, index, cursor)
    ensures at == LowerBound(ring, bounds[index])
    ensures CursorBefore(ring, bounds, index + 1, at)
  {
    at := cursor;
    while at < |ring| && ring[at].hash < bounds[index]
      invariant CursorBefore(ring, bounds, index, at)
    {
      at := at + 1;
    }
    LowerBoundIs(ring, bounds[index], at);
    if index + 1 < |bounds| {
      assert bounds[index] < bounds[index + 1];
    }
  }

  /** A membership whose ring's hashes are all boundaries has one owner for a whole stretch. */
  lemma OwnerOnStretch(c: Cluster, ms: seq<Name>, live: seq<bool>, ring: seq<Point>, bounds: seq<U64>, i: nat, x: U64)
    requires Placed(c, ms, live, ring) && ring != [] && Increasing(bounds) && i < |bounds|
    requires forall y: U64 :: HasHash(ring, y) ==> y in bounds
    requires StretchOf(bounds, x) == i
    ensures Owner(c, x) == OwnerFrom(ms, live, ring, Successor(ring, bounds[i]))
  {
    StretchesPartition(bounds, i, x);
    StretchSuccessor(ring, bounds, i, x);
    OwnerFromIsOwner(c, ms, live, ring, x);
  }

  lemma StretchMoves(c: Cluster, ms: seq<Name>, live: seq<bool>, ring: seq<Point>,
                     d: Cluster, ns: seq<Name>, live': seq<bool>, ring': seq<Point>, bounds: seq<U64>, i: nat)
    requires Placed(c, ms, live, ring) && ring != [] && Placed(d, ns, live', ring') && ring' != []
    requires BoundsOf(ring, ring', bounds) && i < |bounds|
    ensures OneMove(c, d, bounds, i,
              MovedBetween(OwnerFrom(ms, live, ring, Successor(ring, bounds[i])),
                           OwnerFrom(ns, live', ring', Successor(ring', bounds[i]))))
  {
    forall x: U64 | StretchOf(bounds, x) == i
      ensures Owner(c, x) == OwnerFrom(ms, live, ring, Successor(ring, bounds[i]))
      ensures Owner(d, x) == OwnerFrom(ns, live', ring', Successor(ring', bounds[i]))
    {
      OwnerOnStretch(c, ms, live, ring, bounds, i, x);
      OwnerOnStretch(d, ns, live', ring', bounds, i, x);
    }
  }

  lemma NoneClassified(c: Cluster, d: Cluster, bounds: seq<U64>)
    requires WellFormed(c) && WellFormed(d) && bounds != []
    ensures Classified(c, d, bounds, 0, [])
  {
  }

  lemma BoundsNotEmpty(a: seq<Point>, b: seq<Point>, bounds: seq<U64>)
    requires a != [] && BoundsOf(a, b, bounds)
    ensures bounds != []
  {
    assert HasHash(a, a[0].hash);
  }

  /** Once every stretch is classified, the moves are exactly those of the hashes. */
  lemma AllClassified(c: Cluster, d: Cluster, bounds: seq<U64>, moved: seq<Move>, es: seq<Move>)
    requires WellFormed(c) && WellFormed(d) && bounds != []
    requires Classified(c, d, bounds, |bounds|, moved) && SameMoves(es, moved)
    ensures forall x: U64, from: Name, to: Name :: Carries(es, x, from, to) <==> Moved(c, d, x) == Some((from, to))
  {
  }

  /** No hash moves where one of the rings is empty. */
  lemma NothingMoves(c: Cluster, ms: seq<Name>, ring: seq<Point>, d: Cluster, ns: seq<Name>, ring': seq<Point>)
    requires WellFormed(c) && Lists(c, ms) && IsRing(c, ms, ring)
    requires WellFormed(d) && Lists(d, ns) && IsRing(d, ns, ring')
    requires ring == [] || ring' == []
    ensures IsPlan(c, d, [])
  {
    if ring == [] {
      EmptyRingEmptyCluster(c, ms, ring);
    } else {
      EmptyRingEmptyCluster(d, ns, ring');
    }
    EmptyPlan(c, d);
  }

  lemma EmptyPlan(c: Cluster, d: Cluster)
    requires WellFormed(c) && WellFormed(d) && forall x: U64 :: Moved(c, d, x) == None
    ensures IsPlan(c, d, [])
  {
  }
}
