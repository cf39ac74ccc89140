/** The topology of a cluster, `CacheClusterTopology`: its membership, what is derived from it, and
    the lookups. */
module Topologies {
  import opened Words
  import opened Names
  import opened Clusters
  import opened RingIndex
  import opened Placement
  import opened Replicas
  import opened Rings
  import opened MemberTable
  import opened Views
  import opened Operations
  import opened Lookups
  import opened Boundaries
  import opened Moves
  import opened Handoffs
  import opened HandoffWalk
  import RoutingBytes

  const RING_POINTS_PER_WEIGHT: U32 := 160

  class Topology {
    const h: seq<Byte> -> U64
    const pointsPerWeight: U32
    var nodes: map<Name, Node>
    var members: seq<Name>
    var memberLive: seq<bool>
    var memberDomain: seq<nat>
    var liveCount: nat
    var domainCount: nat
    var ring: seq<Point>
    var prefixIndex: seq<nat>
    var indexBits: nat

    /** The cluster with this topology's hash and density, and the given members. */
    ghost function With(others: map<Name, Node>): Cluster {
      Cluster(h, pointsPerWeight, others)
    }

    ghost function State(): View
      reads this
    {
      View(members, memberLive, memberDomain, liveCount, domainCount, ring, prefixIndex, indexBits)
    }

    ghost predicate Valid()
      reads this
    {
      Canonical(With(nodes), State())
    }

    /** An empty membership and no table. Every member will have at least one point. */
    constructor WithPointsPerWeight(hash: seq<Byte> -> U64, points: U32)
      ensures Valid() && nodes == map[] && h == hash
      ensures pointsPerWeight == if points == 0 then 1 else points
      ensures NeverIndexed(ring, prefixIndex, indexBits)
    {
      h := hash;
      pointsPerWeight := if points < 1 then 1 else points;
      nodes := map[];
      members := [];
      memberLive := [];
      memberDomain := [];
      liveCount := 0;
      domainCount := 0;
      ring := [];
      prefixIndex := [];
      indexBits := INDEX_MIN_BITS;
    }

    /** The topology a caller gets by default, on the hash every cluster routes by. */
    constructor New()
      ensures Valid() && nodes == map[]
      ensures h == RoutingBytes.RouteHash && pointsPerWeight == 160
      ensures NeverIndexed(ring, prefixIndex, indexBits)
    {
      h := RoutingBytes.RouteHash;
      pointsPerWeight := RING_POINTS_PER_WEIGHT;
      nodes := map[];
      members := [];
      memberLive := [];
      memberDomain := [];
      liveCount := 0;
      domainCount := 0;
      ring := [];
      prefixIndex := [];
      indexBits := INDEX_MIN_BITS;
    }

    // ---- Deriving the state ----

    method RefreshLive()
      requires Lists(With(nodes), members) && |memberDomain| == |members|
      modifies this`memberLive, this`liveCount, this`domainCount
      ensures LiveFlags(With(nodes), members, memberLive) && liveCount == |LiveNames(With(nodes))|
      ensures Tabled(With(nodes), members, memberDomain) ==> domainCount == |LiveDomains(With(nodes))|
    {
      memberLive := FlagLive(nodes, With(nodes), members);
      liveCount := CountLive(memberLive, With(nodes), members);
      domainCount := CountLiveDomains(memberDomain, memberLive, With(nodes), members);
    }

    method RefreshMemberTable()
      modifies this`members, this`memberDomain
      ensures Lists(With(nodes), members) && |memberDomain| == |members|
      ensures Numberable(nodes) ==> Tabled(With(nodes), members, memberDomain)
    {
      members, memberDomain := BuildMemberTable(nodes);
      MembersCounted(With(nodes), members);
    }

    method RebuildPrefixIndex()
      modifies this`prefixIndex, this`indexBits
      ensures Indexed(ring, prefixIndex, indexBits)
    {
      indexBits, prefixIndex := BuildTable(ring);
    }

    /** Recomputes everything from the membership. */
    method RebuildRing()
      requires WellFormed(With(nodes))
      modifies this`members, this`memberDomain, this`ring, this`prefixIndex, this`indexBits
      modifies this`memberLive, this`liveCount, this`domainCount
      ensures Numberable(nodes) ==> Rebuilt(With(nodes), State())
    {
      RefreshMemberTable();
      MembersCounted(With(nodes), members);
      ring := FullRing(h, pointsPerWeight, nodes, members);
      RefreshIndexAndLive();
    }

    /** The table and the liveness, for a ring and members that are in place. */
    method RefreshIndexAndLive()
      requires WellFormed(With(nodes)) && Lists(With(nodes), members) && |memberDomain| == |members|
      modifies this`prefixIndex, this`indexBits, this`memberLive, this`liveCount, this`domainCount
      ensures Tabled(With(nodes), members, memberDomain) && IsRing(With(nodes), members, ring) ==>
        Rebuilt(With(nodes), State())
    {
      RebuildPrefixIndex();
      RefreshLive();
      AssembleRebuilt(With(nodes), State());
    }

    // ---- One member more or less ----

    /** `name` has just entered the membership, and its points enter the ring. */
    method AdmitOneMember(name: Name)
      requires name in nodes && WellFormed(With(nodes))
      requires Canonical(With(nodes - {name}), State())
      modifies this`members, this`memberDomain, this`ring, this`prefixIndex, this`indexBits
      modifies this`memberLive, this`liveCount, this`domainCount
      ensures Numberable(nodes) ==> Rebuilt(With(nodes), State())
    {
      var keys := KeysInOrder(nodes);
      assert name in Elements(keys);
      var position := Index(keys, name);
      ghost var c := With(nodes - {name});
      Admitting(c, With(nodes), State(), keys, position);
      MembersCounted(With(nodes), keys);
      ring := AdmitPoints(h, pointsPerWeight, nodes, keys, position, ring, c);
      RefreshAround(keys);
    }

    /** The member at `position` has just left, and its points leave the ring. */
    method RetireOneMember(position: nat, ghost was: map<Name, Node>)
      requires Canonical(With(was), State())
      requires position < |members| && nodes == was - {members[position]}
      modifies this`members, this`memberDomain, this`ring, this`prefixIndex, this`indexBits
      modifies this`memberLive, this`liveCount, this`domainCount
      ensures Numberable(was) ==> Rebuilt(With(nodes), State())
    {
      ghost var c := With(was);
      Retiring(c, With(nodes), State(), position);
      ghost var ms := members;
      MembersCounted(c, ms);
      MembersCounted(With(nodes), DropAt(ms, position));
      ring := RetirePoints(ring, position, c, With(nodes), ms);
      RefreshAround(DropAt(ms, position));
    }

    /** Brings everything else in step with a ring that already is. */
    method RefreshAround(ghost ms: seq<Name>)
      requires WellFormed(With(nodes)) && Lists(With(nodes), ms)
      modifies this`members, this`memberDomain, this`prefixIndex, this`indexBits
      modifies this`memberLive, this`liveCount, this`domainCount
      ensures Numberable(nodes) && IsRing(With(nodes), ms, ring) ==> Rebuilt(With(nodes), State())
    {
      RefreshMemberTable();
      ListsUnique(With(nodes), members, ms);
      RefreshIndexAndLive();
    }

    // ---- Membership ----

    method InsertNode(name: Name, weight: U32, zone: Option<Name>)
      modifies this`nodes
      ensures nodes == Join(old(nodes), Joining(name, weight, zone))
    {
      nodes := nodes[name := Node(name, weight, Live, zone)];
    }

    /** Adds a live node, in no zone. */
    method AddNode(name: Name, weight: U32) returns (r: Result<ConfigError>)
      requires Valid()
      modifies this
      ensures r == CheckJoining(old(nodes), Joining(name, weight, None))
      ensures r.Err? ==> Valid() && nodes == old(nodes) && State() == old(State())
      ensures r.Ok? ==> nodes == Join(old(nodes), Joining(name, weight, None))
      ensures r.Ok? ==> nodes == old(nodes)[name := Node(name, weight, Live, None)]
      ensures r.Ok? && Numberable(nodes) ==> Valid() && Rebuilt(With(nodes), State())
    {
      r := CheckNewNode(nodes, name, weight);
      if r.Ok? {
        JoinKeepsForm(With(nodes), Joining(name, weight, None));
        InsertNode(name, weight, None);
        AdmitOneMember(name);
      }
    }

    /** Adds a live node in a zone, which must have a name. */
    method AddNodeInZone(name: Name, weight: U32, zone: Name) returns (r: Result<ConfigError>)
      requires Valid()
      modifies this
      ensures r == CheckJoining(old(nodes), Joining(name, weight, Some(zone)))
      ensures r.Err? ==> Valid() && nodes == old(nodes) && State() == old(State())
      ensures r.Ok? ==> nodes == Join(old(nodes), Joining(name, weight, Some(zone)))
      ensures r.Ok? ==> nodes == old(nodes)[name := Node(name, weight, Live, Some(zone))]
      ensures r.Ok? && Numberable(nodes) ==> Valid() && Rebuilt(With(nodes), State())
    {
      r := CheckNewNode(nodes, name, weight);
      if r.Ok? {
        if zone == [] {
          r := Err(EmptyZone(name));
        } else {
          JoinKeepsForm(With(nodes), Joining(name, weight, Some(zone)));
          InsertNode(name, weight, Some(zone));
          AdmitOneMember(name);
        }
      }
    }

    /** Adds every node of the batch and rebuilds once, or adds none. */
    method AddBatch(batch: seq<Joining>) returns (r: Result<ConfigError>)
      requires Valid()
      modifies this
      ensures r == CheckBatch(old(nodes), batch)
      ensures r.Err? ==> Valid() && nodes == old(nodes) && State() == old(State())
      ensures r.Ok? ==> nodes == JoinAll(old(nodes), batch)
      ensures r.Ok? && Numberable(nodes) ==> Valid() && Rebuilt(With(nodes), State())
    {
      var seen: set<Name> := {};
      for i := 0 to |batch|
        invariant CheckBatch(nodes, batch[..i]).Ok? && seen == BatchNames(batch[..i])
        invariant nodes == old(nodes) && State() == old(State())
      {
        BatchStep(nodes, batch, i);
        r := CheckJoining(nodes, batch[i]);
        if r.Err? {
          return;
        }
        if batch[i].name in seen {
          return Err(TwiceInBatch(batch[i].name));
        }
        seen := seen + {batch[i].name};
      }
      assert batch[..|batch|] == batch;
      JoinAllKeepsForm(With(nodes), batch);
      for i := 0 to |batch|
        invariant nodes == JoinAll(old(nodes), batch[..i])
      {
        assert batch[..i + 1][..i] == batch[..i];
        InsertNode(batch[i].name, batch[i].weight, batch[i].zone);
      }
      RebuildRing();
      r := Ok;
    }

    method AddNodes(list: seq<(Name, U32)>) returns (r: Result<ConfigError>)
      requires Valid()
      modifies this
      ensures r.Err? ==> Valid() && nodes == old(nodes) && State() == old(State())
      ensures r == CheckBatch(old(nodes), Unzoned(list)) && (r.Ok? ==> nodes == JoinAll(old(nodes), Unzoned(list)))
      ensures r.Ok? <==>
        && (forall i :: 0 <= i < |list| ==>
              list[i].0 != [] && list[i].1 > 0 && list[i].0 !in old(nodes))
        && (forall i, j :: 0 <= i < j < |list| ==> list[i].0 != list[j].0)
      ensures r.Ok? ==> forall i :: 0 <= i < |list| ==>
        list[i].0 in nodes && nodes[list[i].0] == Node(list[i].0, list[i].1, Live, None)
      ensures r.Ok? ==> forall n :: n in old(nodes) ==> n in nodes && nodes[n] == old(nodes)[n]
      ensures r.Ok? ==> forall n :: n in nodes && n !in old(nodes) ==> exists i :: 0 <= i < |list| && list[i].0 == n
      ensures r.Ok? && Numberable(nodes) ==> Valid() && Rebuilt(With(nodes), State())
    {
      UnzonedTaken(nodes, list);
      r := AddBatch(Unzoned(list));
      if r.Ok? {
        UnzonedJoin(old(nodes), list);
      }
    }

    method AddNodesInZones(list: seq<(Name, U32, Name)>) returns (r: Result<ConfigError>)
      requires Valid()
      modifies this
      ensures r.Err? ==> Valid() && nodes == old(nodes) && State() == old(State())
      ensures r == CheckBatch(old(nodes), Zoned(list)) && (r.Ok? ==> nodes == JoinAll(old(nodes), Zoned(list)))
      ensures r.Ok? <==>
        && (forall i :: 0 <= i < |list| ==>
              list[i].0 != [] && list[i].1 > 0 && list[i].0 !in old(nodes) && list[i].2 != [])
        && (forall i, j :: 0 <= i < j < |list| ==> list[i].0 != list[j].0)
      ensures r.Ok? ==> forall i :: 0 <= i < |list| ==>
        list[i].0 in nodes && nodes[list[i].0] == Node(list[i].0, list[i].1, Live, Some(list[i].2))
      ensures r.Ok? ==> forall n :: n in old(nodes) ==> n in nodes && nodes[n] == old(nodes)[n]
      ensures r.Ok? ==> forall n :: n in nodes && n !in old(nodes) ==> exists i :: 0 <= i < |list| && list[i].0 == n
      ensures r.Ok? && Numberable(nodes) ==> Valid() && Rebuilt(With(nodes), State())
    {
      ZonedTaken(nodes, list);
      r := AddBatch(Zoned(list));
      if r.Ok? {
        ZonedJoin(old(nodes), list);
      }
    }

    /** Takes a node out of the membership, and says whether it was in it. */
    method RemoveNode(name: Name) returns (was: bool)
      requires Valid()
      modifies this
      ensures was == (name in old(nodes)) && nodes == old(nodes) - {name}
      ensures !was ==> Valid() && State() == old(State())
      ensures was && Numberable(old(nodes)) ==> Valid() && Rebuilt(With(nodes), State())
    {
      assert name in nodes <==> name in Elements(members);
      if name in members {
        var position := Index(members, name);
        nodes := nodes - {name};
        RetireOneMember(position, old(nodes));
        was := true;
      } else {
        was := name in nodes;
        assert nodes - {name} == nodes;
        nodes := nodes - {name};
      }
    }

    /** Sets the state of a member, and says whether there is one of that name. Ring, table, names
        and domains are not written to. */
    method SetNodeState(name: Name, state: NodeState) returns (member: bool)
      requires Valid()
      modifies this`nodes, this`memberLive, this`liveCount, this`domainCount
      ensures Valid()
      ensures member == (name in old(nodes)) && nodes == SetState(old(nodes), name, state)
      ensures member ==> nodes == old(nodes)[name := old(nodes)[name].(state := state)]
      ensures !member ==> nodes == old(nodes)
    {
      if name !in nodes {
        return false;
      }
      if nodes[name].state != state {
        ChangeState(name, state);
      } else {
        SameStateSameNodes(nodes, name);
      }
      return true;
    }

    /** Changes the state of a member and recomputes what is live. */
    method ChangeState(name: Name, state: NodeState)
      requires Valid() && name in nodes
      modifies this`nodes, this`memberLive, this`liveCount, this`domainCount
      ensures Valid() && nodes == SetState(old(nodes), name, state)
    {
      ghost var v, d := State(), With(SetState(nodes, name, state));
      StateKeepsRing(With(nodes), v, name, state);
      nodes := nodes[name := nodes[name].(state := state)];
      assert With(nodes) == d && State() == v;
      RefreshLiveOnly(v);
    }

    /** Recomputes what is live, where everything else is right already. */
    method RefreshLiveOnly(ghost v: View)
      requires v == State() && StillRight(With(nodes), v)
      modifies this`memberLive, this`liveCount, this`domainCount
      ensures Valid()
    {
      RefreshLive();
      StateRefreshed(With(nodes), v, State());
    }

    // ---- Lookups ----

    /** The table leads a lookup for `x` to the right point. It does on every ring of fewer than
        2^32 points. */
    ghost predicate Finds(x: U64)
      reads this
    {
      |ring| < U32_SIZE || Findable(ring, IndexBits(|ring|), x)
    }

    /** The successor of `x` on the ring, for the hashes the table can find, and only for them. */
    method FirstPointAtOrAfter(x: U64) returns (r: Option<nat>)
      requires Valid()
      ensures r.None? <==> ring == []
      ensures r.Some? ==> r.value < |ring| && (r.value == Successor(ring, x) <==> Finds(x))
      ensures r.Some? ==> r.value == Wrap(ring, Scanned(ring, IndexBits(|ring|), x))
    {
      if ring == [] {
        return None;
      }
      var point := ScanSlot(ring, prefixIndex, indexBits, x);
      ScanFinds(ring, indexBits, x);
      return Some(if point == |ring| then 0 else point);
    }

    /** The live point the fewest steps on from `index`, or none if no point is live. */
    method FirstLivePointFrom(index: nat) returns (r: Option<nat>)
      requires Valid()
      ensures InRange(ring, |memberLive|) && r == LiveFrom(memberLive, ring, index, 0)
    {
      if liveCount == 0 {
        NoFlagNoStep(With(nodes), members, memberLive, ring, index);
        return None;
      }
      r := StepToLive(memberLive, ring, index);
    }

    /** The owner of `x`, where the table finds it, and in any case a node that serves if one does. */
    method OwnerOfRouteHash(x: U64) returns (r: Option<Name>)
      requires Valid()
      ensures Finds(x) ==> r == Owner(With(nodes), x)
      ensures Placed(With(nodes), members, memberLive, ring)
      ensures ring != [] ==> r == OwnerFrom(members, memberLive, ring, Wrap(ring, Scanned(ring, IndexBits(|ring|), x)))
      ensures r.None? <==> LiveNames(With(nodes)) == {}
      ensures r.Some? ==> r.value in LiveNames(With(nodes))
    {
      OwnerIsNearest(With(nodes), x);
      var point := FirstPointAtOrAfter(x);
      if point.None? {
        EmptyRingEmptyCluster(With(nodes), members, ring);
        return None;
      }
      OwnerFromIsOwner(With(nodes), members, memberLive, ring, x);
      OwnerFromServes(With(nodes), members, memberLive, ring, point.value);
      var live := FirstLivePointFrom(point.value);
      if live.None? {
        return None;
      }
      LiveFromBelow(memberLive, ring, point.value, 0);
      return Some(members[ring[live.value].node]);
    }

    /** The holders of `x` in order of preference, where the table finds it, and in any case nodes
        as well placed as the holders would be. */
    method OwnersOfHash(x: U64, copies: nat) returns (names: seq<Name>)
      requires Valid()
      ensures Finds(x) ==> names == Owners(With(nodes), x, copies)
      ensures WellPlaced(With(nodes), names, copies)
    {
      OwnersClamp(With(nodes), x, copies);
      var wanted := Min(copies, liveCount);
      if wanted == 0 {
        return [];
      }
      var start := FirstPointAtOrAfter(x);
      if start.None? {
        EmptyRingEmptyCluster(With(nodes), members, ring);
        return [];
      }
      names := PlaceCopies(members, memberLive, memberDomain, ring, start.value, wanted, domainCount, With(nodes), x);
    }

    /** The owner of the hash of the bytes of `key`. */
    method OwnerOfKey(key: RoutingBytes.CacheKey) returns (r: Option<Name>)
      requires Valid()
      ensures Finds(h(RoutingBytes.Encode(key))) ==> r == Owner(With(nodes), h(RoutingBytes.Encode(key)))
      ensures r.None? <==> LiveNames(With(nodes)) == {}
      ensures r.Some? ==> r.value in LiveNames(With(nodes))
    {
      var bytes := RoutingBytes.CacheKeyRoutingBytes(key);
      r := OwnerOfRouteHash(h(bytes));
    }

    /** The holders of the hash of the bytes of `key`. */
    method OwnersOfKey(key: RoutingBytes.CacheKey, copies: nat) returns (names: seq<Name>)
      requires Valid()
      ensures Finds(h(RoutingBytes.Encode(key))) ==>
        names == Owners(With(nodes), h(RoutingBytes.Encode(key)), copies)
      ensures WellPlaced(With(nodes), names, copies)
    {
      var bytes := RoutingBytes.CacheKeyRoutingBytes(key);
      names := OwnersOfHash(h(bytes), copies);
    }

    // ---- Handoffs ----

    /** The member a lookup starting at ring point `index` answers with. */
    method OwnerFromPoint(index: nat) returns (r: Option<Name>)
      requires Valid()
      ensures Placed(With(nodes), members, memberLive, ring)
      ensures r == OwnerFrom(members, memberLive, ring, index)
    {
      var live := FirstLivePointFrom(index);
      if live.None? {
        return None;
      }
      LiveFromBelow(memberLive, ring, index, 0);
      return Some(members[ring[live.value].node]);
    }

    /** Walks the boundaries with a cursor in either ring, and keeps the stretches whose owner
        changes. */
    method ClassifyStretches(next: Topology, bounds: seq<U64>) returns (moved: seq<Move>)
      requires Valid() && next.Valid() && ring != [] && next.ring != []
      requires BoundsOf(ring, next.ring, bounds) && bounds != []
      ensures Classified(With(nodes), next.With(next.nodes), bounds, |bounds|, moved)
    {
      ghost var c, d := With(nodes), next.With(next.nodes);
      moved := [];
      var mine, theirs := 0, 0;
      NoneClassified(c, d, bounds);
      for index := 0 to |bounds|
        invariant CursorBefore(ring, bounds, index, mine) && CursorBefore(next.ring, bounds, index, theirs)
        invariant Classified(c, d, bounds, index, moved)
      {
        mine := Advance(ring, bounds, index, mine);
        theirs := Advance(next.ring, bounds, index, theirs);
        var before := OwnerFromPoint(if mine == |ring| then 0 else mine);
        var after := next.OwnerFromPoint(if theirs == |next.ring| then 0 else theirs);
        StretchMoves(c, members, memberLive, ring, d, next.members, next.memberLive, next.ring, bounds, index);
        if before.None? || after.None? || before == after {
          ClassifiedStays(c, d, bounds, index, moved);
        } else {
          ClassifiedMoves(c, d, bounds, index, moved, before.value, after.value);
          moved := moved + [Move(Stretch(bounds, index), before.value, after.value)];
        }
      }
    }

    /** The plan for the change from this membership to that of `next`. */
    method HandoffsTo(next: Topology) returns (plan: seq<Handoff>)
      requires Valid() && next.Valid()
      ensures IsPlan(With(nodes), next.With(next.nodes), plan)
    {
      if ring == [] || next.ring == [] {
        NothingMoves(With(nodes), members, ring, next.With(next.nodes), next.members, next.ring);
        return [];
      }
      var bounds := MergeBounds(ring, next.ring);
      BoundsNotEmpty(ring, next.ring, bounds);
      var moved := ClassifyStretches(next, bounds);
      ghost var top := bounds[|bounds| - 1];
      var joined := JoinNeighbours(moved, top);
      var es := JoinWrap(joined, top);
      plan := GroupByPair(es);
      SameMovesTransitive(es, joined, moved);
      AllClassified(With(nodes), next.With(next.nodes), bounds, moved, es);
      GroupIsPlan(With(nodes), next.With(next.nodes), es, plan);
    }
  }

  function Unzoned(list: seq<(Name, U32)>): seq<Joining> {
    seq(|list|, i requires 0 <= i < |list| => Joining(list[i].0, list[i].1, None))
  }

  function Zoned(list: seq<(Name, U32, Name)>): seq<Joining> {
    seq(|list|, i requires 0 <= i < |list| => Joining(list[i].0, list[i].1, Some(list[i].2)))
  }

  lemma UnzonedTaken(was: map<Name, Node>, list: seq<(Name, U32)>)
    ensures CheckBatch(was, Unzoned(list)).Ok? <==>
      && (forall i :: 0 <= i < |list| ==> list[i].0 != [] && list[i].1 > 0 && list[i].0 !in was)
      && (forall i, j :: 0 <= i < j < |list| ==> list[i].0 != list[j].0)
  {
    var batch := Unzoned(list);
    BatchTaken(was, batch);
    forall i | 0 <= i < |list|
      ensures CheckJoining(was, batch[i]).Ok? <==> list[i].0 != [] && list[i].1 > 0 && list[i].0 !in was
    {
    }
  }

  lemma UnzonedJoin(was: map<Name, Node>, list: seq<(Name, U32)>)
    requires CheckBatch(was, Unzoned(list)).Ok?
    ensures
      var now := JoinAll(was, Unzoned(list));
      && (forall i :: 0 <= i < |list| ==>
            list[i].0 in now && now[list[i].0] == Node(list[i].0, list[i].1, Live, None))
      && (forall n :: n in was ==> n in now && now[n] == was[n])
      && (forall n :: n in now && n !in was ==> exists i :: 0 <= i < |list| && list[i].0 == n)
  {
    var batch := Unzoned(list);
    var now := JoinAll(was, batch);
    BatchTaken(was, batch);
    JoinAllHolds(was, batch);
    forall i | 0 <= i < |list|
      ensures list[i].0 in now && now[list[i].0] == Node(list[i].0, list[i].1, Live, None)
    {
      assert batch[i] in batch;
    }
    forall n | n in was ensures n in now && now[n] == was[n] {
      NotListed(was, batch, n);
    }
    forall n | n in now && n !in was ensures exists i :: 0 <= i < |list| && list[i].0 == n {
      var i := Listed(batch, n);
      assert list[i].0 == n;
    }
  }

  lemma ZonedTaken(was: map<Name, Node>, list: seq<(Name, U32, Name)>)
    ensures CheckBatch(was, Zoned(list)).Ok? <==>
      && (forall i :: 0 <= i < |list| ==> list[i].0 != [] && list[i].1 > 0 && list[i].0 !in was && list[i].2 != [])
      && (forall i, j :: 0 <= i < j < |list| ==> list[i].0 != list[j].0)
  {
    var batch := Zoned(list);
    BatchTaken(was, batch);
    forall i | 0 <= i < |list|
      ensures CheckJoining(was, batch[i]).Ok? <==>
        list[i].0 != [] && list[i].1 > 0 && list[i].0 !in was && list[i].2 != []
    {
    }
  }

  lemma ZonedJoin(was: map<Name, Node>, list: seq<(Name, U32, Name)>)
    requires CheckBatch(was, Zoned(list)).Ok?
    ensures
      var now := JoinAll(was, Zoned(list));
      && (forall i :: 0 <= i < |list| ==>
            list[i].0 in now && now[list[i].0] == Node(list[i].0, list[i].1, Live, Some(list[i].2)))
      && (forall n :: n in was ==> n in now && now[n] == was[n])
      && (forall n :: n in now && n !in was ==> exists i :: 0 <= i < |list| && list[i].0 == n)
  {
    var batch := Zoned(list);
    var now := JoinAll(was, batch);
    BatchTaken(was, batch);
    JoinAllHolds(was, batch);
    forall i | 0 <= i < |list|
      ensures list[i].0 in now && now[list[i].0] == Node(list[i].0, list[i].1, Live, Some(list[i].2))
    {
      assert batch[i] in batch;
    }
    forall n | n in was ensures n in now && now[n] == was[n] {
      NotListed(was, batch, n);
    }
    forall n | n in now && n !in was ensures exists i :: 0 <= i < |list| && list[i].0 == n {
      var i := Listed(batch, n);
      assert list[i].0 == n;
    }
  }

  lemma NotListed(was: map<Name, Node>, batch: seq<Joining>, n: Name)
    requires n in was && forall i :: 0 <= i < |batch| ==> CheckJoining(was, batch[i]).Ok?
    ensures n !in BatchNames(batch)
  {
  }

  lemma Listed(batch: seq<Joining>, n: Name) returns (i: nat)
    requires n in BatchNames(batch)
    ensures i < |batch| && batch[i].name == n
  {
    i :| 0 <= i < |batch| && batch[i].name == n;
  }

  lemma JoinKeepsForm(c: Cluster, j: Joining)
    requires WellFormed(c) && CheckJoining(c.nodes, j).Ok?
    ensures WellFormed(c.(nodes := Join(c.nodes, j)))
    ensures Join(c.nodes, j) - {j.name} == c.nodes
  {
  }

  lemma JoinAllKeepsForm(c: Cluster, batch: seq<Joining>)
    requires WellFormed(c) && CheckBatch(c.nodes, batch).Ok?
    ensures WellFormed(c.(nodes := JoinAll(c.nodes, batch)))
  {
  }

  lemma SameStateSameNodes(nodes: map<Name, Node>, name: Name)
    requires name in nodes
    ensures SetState(nodes, name, nodes[name].state) == nodes
  {
  }

  lemma StateKeepsDomains(nodes: map<Name, Node>, ms: seq<Name>, name: Name, state: NodeState)
    ensures DomainSeq(SetState(nodes, name, state), ms) == DomainSeq(nodes, ms)
  {
  }

  /** Going up or down moves no point and renumbers no domain. */
  lemma StateKeepsPoints(c: Cluster, ms: seq<Name>, domains: seq<nat>, ring: seq<Point>, name: Name, state: NodeState)
    requires WellFormed(c) && Tabled(c, ms, domains) && IsRing(c, ms, ring) && name in c.nodes
    ensures
      var d := c.(nodes := SetState(c.nodes, name, state));
      WellFormed(d) && Tabled(d, ms, domains) && IsRing(d, ms, ring)
  {
    var d := c.(nodes := SetState(c.nodes, name, state));
    assert d.nodes.Keys == c.nodes.Keys;
    assert SameWeights(c, d, Elements(ms));
    PlacesAgree(c, d, ms);
    StateKeepsDomains(c.nodes, ms, name, state);
  }

  lemma StateKeepsRing(c: Cluster, v: View, name: Name, state: NodeState)
    requires Canonical(c, v) && name in c.nodes
    ensures StillRight(c.(nodes := SetState(c.nodes, name, state)), v)
  {
    StateKeepsPoints(c, v.members, v.memberDomain, v.ring, name, state);
  }

  /** Everything but the liveness is that of `c`. */
  ghost predicate StillRight(c: Cluster, v: View) {
    && WellFormed(c) && Tabled(c, v.members, v.memberDomain) && IsRing(c, v.members, v.ring)
    && (Indexed(v.ring, v.prefixIndex, v.indexBits) || NeverIndexed(v.ring, v.prefixIndex, v.indexBits))
  }

  lemma StateRefreshed(c: Cluster, v: View, w: View)
    requires StillRight(c, v)
    requires w == v.(memberLive := w.memberLive, liveCount := w.liveCount, domainCount := w.domainCount)
    requires Counted(c, w.members, w.memberLive, w.liveCount, w.domainCount)
    ensures Canonical(c, w)
  {
  }

  /** Where the newcomer stands: the members before it joined are the members after, without it. */
  lemma Admitting(c: Cluster, d: Cluster, v: View, keys: seq<Name>, position: nat)
    requires WellFormed(d) && Lists(d, keys)
    requires position < |keys| && c == d.(nodes := d.nodes - {keys[position]})
    requires Canonical(c, v)
    ensures v.members == DropAt(keys, position)
    ensures SameWeights(c, d, c.nodes.Keys)
  {
    assert keys[position] in Elements(keys);
    DropAtAscending(keys, position);
    assert c.nodes.Keys == d.nodes.Keys - {keys[position]};
    ListsUnique(c, v.members, DropAt(keys, position));
  }

  /** What the leaver leaves behind. */
  lemma Retiring(c: Cluster, d: Cluster, v: View, position: nat)
    requires Canonical(c, v)
    requires position < |v.members| && d == c.(nodes := c.nodes - {v.members[position]})
    ensures Lists(d, DropAt(v.members, position))
    ensures SameWeights(c, d, d.nodes.Keys) && WellFormed(d)
  {
    DropAtAscending(v.members, position);
  }
}
