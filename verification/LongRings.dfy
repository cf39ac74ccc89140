/** A topology with one point more than its lookup table can number, and a lookup that goes wrong. */
module LongRings {
  import opened Words
  import opened Names
  import opened Labels
  import opened Clusters
  import opened RingIndex
  import opened Placement
  import opened Lookups
  import opened Views
  import opened Topologies

  const HEAVY: Name := [97]
  const LIGHT: Name := [98]

  /** Gives the points of `HEAVY` the hashes 0, 1, 2 and so on, and all others the one above them. */
  function NumberedHash(text: seq<Byte>): U64 {
    var n := if |text| >= 2 && text[..2] == HEAVY + [HASH_SIGN] then DecimalValue(text[2..]) else U32_MAX;
    if 0 <= n < U32_MAX then n else U32_MAX
  }

  ghost function LongCluster(): Cluster {
    Cluster(NumberedHash, 1, map[HEAVY := Node(HEAVY, U32_MAX, Live, None), LIGHT := Node(LIGHT, 1, Live, None)])
  }

  ghost function LongNames(): seq<Name> {
    [HEAVY, LIGHT]
  }

  ghost function LongRing(): (ring: seq<Point>)
    ensures |ring| == U32_SIZE && forall i :: 0 <= i < U32_SIZE ==> ring[i] == LongPoint(i)
  {
    seq(U32_SIZE, i requires 0 <= i < U32_SIZE => LongPoint(i))
  }

  ghost function LongPoint(i: nat): Point
    requires i < U32_SIZE
  {
    Point(i, if i < U32_MAX then 0 else 1)
  }

  // ---- The ring of the cluster ----

  lemma HeavyHash(i: nat)
    requires i < U32_MAX
    ensures NumberedHash(Label(HEAVY, i)) == i
  {
    DecimalReadsBack(i);
    var text := Label(HEAVY, i);
    assert text[..2] == HEAVY + [HASH_SIGN];
    assert text[2..] == Decimal(i);
  }

  lemma LightHash()
    ensures NumberedHash(Label(LIGHT, 0)) == U32_MAX
  {
    assert Label(LIGHT, 0)[..2][0] == 98;
  }

  lemma LongPlaces()
    ensures Lists(LongCluster(), LongNames())
    ensures Places(LongCluster(), LongNames()) == PlacesOf(LongCluster(), HEAVY) + PlacesOf(LongCluster(), LIGHT)
  {
    var c, ms := LongCluster(), LongNames();
    assert Lt(HEAVY, LIGHT);
    assert Elements(ms) == {HEAVY, LIGHT};
    assert ms[1..] == [LIGHT] && [LIGHT][1..] == [];
    assert Places(c, [LIGHT]) == PlacesOf(c, LIGHT) + [];
  }

  lemma LongIsRing()
    ensures WellFormed(LongCluster()) && Lists(LongCluster(), LongNames())
    ensures IsRing(LongCluster(), LongNames(), LongRing())
  {
    var c, ms, ring := LongCluster(), LongNames(), LongRing();
    LongPlaces();
    forall i | 0 <= i < U32_SIZE ensures Named(ms, ring)[i] == Places(c, ms)[i] {
      if i < U32_MAX {
        HeavyHash(i);
      } else {
        LightHash();
      }
    }
    assert Named(ms, ring) == Places(c, ms);
  }

  // ---- The table of the ring ----

  lemma LongRingBelow(x: nat)
    ensures LowerBound(LongRing(), x) == Min(x, U32_SIZE)
  {
    LowerBoundIs(LongRing(), x, Min(x, U32_SIZE));
  }

  lemma FirstSlotIsWide(bits: nat, x: U64)
    requires bits <= INDEX_MAX_BITS && x < U32_SIZE
    ensures Slot(x, bits) == 0 && SlotStart(0, bits) == 0 && SlotStart(1, bits) >= U32_SIZE && Pow2(bits) >= 1
  {
    Pow2Monotone(32, 64 - bits);
    Pow2Of32();
    DivSmall(x, Pow2(64 - bits));
  }

  lemma DivSmall(x: nat, d: nat)
    requires x < d
    ensures x / d == 0
  {
  }

  lemma LongRingEntries(bits: nat)
    requires bits <= INDEX_MAX_BITS
    ensures Entry(LongRing(), bits, 0) == 0 && Entry(LongRing(), bits, 1) == U32_SIZE
  {
    FirstSlotIsWide(bits, 0);
    LongRingBelow(SlotStart(0, bits));
    LongRingBelow(SlotStart(1, bits));
  }

  /** Every point is in the first slot, whose end is cut to its start: the scan never moves. */
  lemma LongRingLoses(bits: nat, x: U64)
    requires bits <= INDEX_MAX_BITS && 0 < x < U32_SIZE
    ensures !Findable(LongRing(), bits, x) && Scanned(LongRing(), bits, x) == 0
    ensures Successor(LongRing(), x) == x
  {
    FirstSlotIsWide(bits, x);
    LongRingBelow(x);
    LongRingEntries(bits);
    assert ScanStop(0, U32_SIZE, x) == 0 && !Reaches(U32_SIZE, 0, U32_SIZE, x);
  }

  // ---- The answer it gives ----

  lemma OwnerAt(c: Cluster, ms: seq<Name>, live: seq<bool>, ring: seq<Point>, start: nat)
    requires Placed(c, ms, live, ring) && start < |ring| && live[ring[start].node]
    ensures OwnerFrom(ms, live, ring, start) == Some(ms[ring[start].node])
  {
    assert Around(start, 0, |ring|) == start;
  }

  /** The owner of the last point is `LIGHT`, and a lookup answers `HEAVY`. */
  lemma LongRingMisroutes(ms: seq<Name>, live: seq<bool>, ring: seq<Point>)
    requires Placed(LongCluster(), ms, live, ring)
    ensures ring == LongRing() && Owner(LongCluster(), U32_MAX) == Some(LIGHT)
    ensures OwnerFrom(ms, live, ring, Wrap(ring, Scanned(ring, IndexBits(|ring|), U32_MAX))) == Some(HEAVY)
  {
    var c := LongCluster();
    LongIsRing();
    ListsUnique(c, ms, LongNames());
    RingUnique(c, ms, ring, LongRing());
    LongRingLoses(IndexBits(|ring|), U32_MAX);
    OwnerFromIsOwner(c, ms, live, ring, U32_MAX);
    OwnerAt(c, ms, live, ring, U32_MAX);
    OwnerAt(c, ms, live, ring, 0);
  }

  /** Two accepted joins make the cluster, and a lookup on it misses the owner. */
  method Misroute() returns (t: Topology, r: Option<Name>)
    ensures t.Valid() && r == Some(HEAVY) && Owner(t.With(t.nodes), U32_MAX) == Some(LIGHT)
  {
    t := new Topology.WithPointsPerWeight(NumberedHash, 1);
    var first := t.AddNode(HEAVY, U32_MAX);
    var second := t.AddNode(LIGHT, 1);
    assert t.With(t.nodes) == LongCluster();
    r := t.OwnerOfRouteHash(U32_MAX);
    LongRingMisroutes(t.members, t.memberLive, t.ring);
  }
}
