/** The state a topology derives from its membership. */
module Views {
  import opened Words
  import opened Names
  import opened Clusters
  import opened RingIndex
  import opened Placement
  import opened Replicas
  import opened MemberTable

  datatype View = View(
    members: seq<Name>,
    memberLive: seq<bool>,
    memberDomain: seq<nat>,
    liveCount: nat,
    domainCount: nat,
    ring: seq<Point>,
    prefixIndex: seq<nat>,
    indexBits: nat)

  /** A u32 can number every member. */
  predicate Numberable(nodes: map<Name, Node>): (r: bool)
    ensures r <==> |nodes| <= 0x1_0000_0000
  {
    |nodes| <= U32_SIZE
  }

  ghost predicate Tabled(c: Cluster, ms: seq<Name>, domains: seq<nat>) {
    Lists(c, ms) && domains == Numbers(DomainSeq(c.nodes, ms))
  }

  ghost predicate Counted(c: Cluster, ms: seq<Name>, live: seq<bool>, liveCount: nat, domainCount: nat) {
    Lists(c, ms) && LiveFlags(c, ms, live) && liveCount == |LiveNames(c)| && domainCount == |LiveDomains(c)|
  }

  ghost predicate Derived(c: Cluster, v: View) {
    && WellFormed(c)
    && Tabled(c, v.members, v.memberDomain)
    && Counted(c, v.members, v.memberLive, v.liveCount, v.domainCount)
    && IsRing(c, v.members, v.ring)
  }

  ghost predicate Indexed(ring: seq<Point>, table: seq<nat>, bits: nat) {
    bits == IndexBits(|ring|) && table == Table(ring, bits)
  }

  /** A topology that has never had a ring has no table either. */
  ghost predicate NeverIndexed(ring: seq<Point>, table: seq<nat>, bits: nat) {
    ring == [] && table == [] && bits == INDEX_MIN_BITS
  }

  /** The view is what a full rebuild from the membership gives. */
  ghost predicate Rebuilt(c: Cluster, v: View) {
    Derived(c, v) && Indexed(v.ring, v.prefixIndex, v.indexBits)
  }

  ghost predicate Canonical(c: Cluster, v: View) {
    Derived(c, v) &&
    (Indexed(v.ring, v.prefixIndex, v.indexBits) || NeverIndexed(v.ring, v.prefixIndex, v.indexBits))
  }

  lemma ListsUnique(c: Cluster, ms: seq<Name>, ns: seq<Name>)
    requires Lists(c, ms) && Lists(c, ns)
    ensures ms == ns
  {
    AscendingUnique(ms, ns);
  }

  /** A membership determines everything a topology derives from it, down to the last ring point
      and table entry. */
  lemma MembershipDetermines(c: Cluster, v: View, w: View)
    requires Canonical(c, v) && Canonical(c, w)
    ensures v.(prefixIndex := w.prefixIndex, indexBits := w.indexBits) == w
    ensures Rebuilt(c, v) && Rebuilt(c, w) ==> v == w
    ensures c.nodes != map[] ==> v == w
  {
    ListsUnique(c, v.members, w.members);
    RingUnique(c, v.members, v.ring, w.ring);
    assert v.memberLive == w.memberLive;
  }

  lemma MembersCounted(c: Cluster, ms: seq<Name>)
    requires Lists(c, ms)
    ensures |ms| == |c.nodes|
  {
    AscendingIsDistinct(ms);
    DistinctCount(ms);
    assert |c.nodes.Keys| == |c.nodes|;
  }

  lemma AssembleRebuilt(c: Cluster, v: View)
    requires WellFormed(c) && Lists(c, v.members)
    requires Tabled(c, v.members, v.memberDomain) ==>
      Counted(c, v.members, v.memberLive, v.liveCount, v.domainCount)
    requires Indexed(v.ring, v.prefixIndex, v.indexBits)
    ensures Tabled(c, v.members, v.memberDomain) && IsRing(c, v.members, v.ring) ==> Rebuilt(c, v)
  {
  }
}
