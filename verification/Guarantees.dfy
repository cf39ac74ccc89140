/** What a cluster can rely on: whole runs, round trips, and what a plan may ask of whom. */
module Guarantees {
  import opened Words
  import opened Names
  import opened Clusters
  import opened Placement
  import opened Replicas
  import opened Stability
  import MemberTable
  import opened Views
  import opened Operations
  import opened HashRanges
  import opened Handoffs
  import opened Topologies

  // ---- Runs ----

  method AddOne(t: Topology, j: Joining)
    requires t.Valid()
    modifies t
    ensures t.nodes == Apply(old(t.nodes), Add(j))
    ensures Numberable(t.nodes) ==> t.Valid()
    ensures Numberable(t.nodes) ==> (t.prefixIndex == [] <==> old(t.prefixIndex) == [] && !Builds(old(t.nodes), Add(j)))
  {
    if j.zone.Some? {
      var r := t.AddNodeInZone(j.name, j.weight, j.zone.value);
    } else {
      var r := t.AddNode(j.name, j.weight);
    }
  }

  method AddMany(t: Topology, batch: seq<Joining>)
    requires t.Valid()
    modifies t
    ensures t.nodes == Apply(old(t.nodes), AddAll(batch))
    ensures Numberable(t.nodes) ==> t.Valid()
    ensures Numberable(t.nodes) ==>
      (t.prefixIndex == [] <==> old(t.prefixIndex) == [] && !Builds(old(t.nodes), AddAll(batch)))
  {
    var r := t.AddBatch(batch);
  }

  method RemoveOne(t: Topology, name: Name)
    requires t.Valid() && Numberable(t.nodes)
    modifies t
    ensures t.Valid() && t.nodes == Apply(old(t.nodes), Remove(name))
    ensures t.prefixIndex == [] <==> old(t.prefixIndex) == [] && !Builds(old(t.nodes), Remove(name))
  {
    var r := t.RemoveNode(name);
  }

  /** One operation of a run. */
  method Perform(t: Topology, op: Op)
    requires t.Valid() && Numberable(t.nodes)
    modifies t
    ensures t.nodes == Apply(old(t.nodes), op)
    ensures Numberable(t.nodes) ==> t.Valid()
    ensures Numberable(t.nodes) ==> (t.prefixIndex == [] <==> old(t.prefixIndex) == [] && !Builds(old(t.nodes), op))
  {
    match op {
      case Add(j) => AddOne(t, j);
      case AddAll(batch) => AddMany(t, batch);
      case Remove(name) => RemoveOne(t, name);
      case Set(name, state) =>
        var r := t.SetNodeState(name, state);
    }
  }

  /** `t` has come from the membership `was` through `ops`: its derived state is what a rebuild from
      its membership would give, but for the table of a topology that has not built one. */
  ghost predicate HasRun(t: Topology, was: map<Name, Node>, tabled: bool, ops: seq<Op>)
    reads t
  {
    && t.nodes == Run(was, ops)
    && (Numberable(t.nodes) ==> t.Valid() && (t.prefixIndex != [] <==> tabled || EverBuilds(was, ops)))
  }

  method RunOne(t: Topology, ops: seq<Op>, k: nat, ghost was: map<Name, Node>, ghost tabled: bool)
    requires k < |ops| && HasRun(t, was, tabled, ops[..k]) && Numberable(t.nodes)
    modifies t
    ensures HasRun(t, was, tabled, ops[..k + 1])
  {
    RunStep(was, ops, k);
    Perform(t, ops[k]);
  }

  /** A u32 can number the members at each of the first `done` steps. */
  ghost predicate StaysNumberable(was: map<Name, Node>, ops: seq<Op>, done: nat)
    requires done <= |ops|
  {
    forall k :: 0 <= k < done ==> Numberable(Run(was, ops[..k]))
  }

  lemma StaysOneMore(was: map<Name, Node>, ops: seq<Op>, done: nat)
    requires done < |ops| && StaysNumberable(was, ops, done) && Numberable(Run(was, ops[..done]))
    ensures StaysNumberable(was, ops, done + 1)
  {
  }

  lemma NothingRun(t: Topology, ops: seq<Op>)
    requires t.Valid()
    ensures HasRun(t, t.nodes, t.prefixIndex != [], ops[..0])
  {
  }

  /** Every run keeps the derived state, to its end or to the first membership a u32 cannot number. */
  method RunAll(t: Topology, ops: seq<Op>) returns (done: nat)
    requires t.Valid()
    modifies t
    ensures done <= |ops| && HasRun(t, old(t.nodes), old(t.prefixIndex) != [], ops[..done])
    ensures StaysNumberable(old(t.nodes), ops, done)
    ensures done < |ops| ==> !Numberable(t.nodes)
  {
    ghost var was, tabled := t.nodes, t.prefixIndex != [];
    done := 0;
    NothingRun(t, ops);
    while done < |ops| && Numberable(t.nodes)
      invariant done <= |ops| && HasRun(t, was, tabled, ops[..done]) && StaysNumberable(was, ops, done)
    {
      StaysOneMore(was, ops, done);
      RunOne(t, ops, done, was, tabled);
      done := done + 1;
    }
  }

  /** The state a run keeps is that of a rebuild exactly when there is a table. */
  lemma TableMeansRebuilt(c: Cluster, v: View)
    requires Canonical(c, v)
    ensures v.prefixIndex != [] <==> Rebuilt(c, v)
  {
  }

  /** Two topologies that have come to the same membership hold the same state, table included
      exactly when both have built one or neither has. */
  lemma HistoryForgotten(a: Topology, b: Topology)
    requires a.Valid() && b.Valid()
    requires a.h == b.h && a.pointsPerWeight == b.pointsPerWeight && a.nodes == b.nodes
    ensures SameButTable(a.State(), b.State())
    ensures a.State() == b.State() <==> (a.prefixIndex == [] <==> b.prefixIndex == [])
    ensures a.nodes != map[] ==> a.State() == b.State()
  {
    MembershipDetermines(a.With(a.nodes), a.State(), b.State());
  }

  // ---- Round trips ----

  /** A node that goes down and comes back leaves no trace. */
  method DownThenUp(t: Topology, name: Name)
    requires t.Valid() && name in t.nodes && t.nodes[name].state == Live
    modifies t
    ensures t.Valid() && t.nodes == old(t.nodes) && t.State() == old(t.State())
  {
    ghost var c, before := t.With(t.nodes), t.State();
    DownUpIsNothing(t.nodes, name);
    var r := t.SetNodeState(name, Down);
    r := t.SetNodeState(name, Live);
    MembershipDetermines(c, before, t.State());
  }

  lemma DownUpIsNothing(nodes: map<Name, Node>, name: Name)
    requires name in nodes && nodes[name].state == Live
    ensures SetState(SetState(nodes, name, Down), name, Live) == nodes
  {
  }

  /** A node that joins and leaves again leaves at most a lookup table where there was none. */
  method JoinThenLeave(t: Topology, j: Joining)
    requires t.Valid() && CheckJoining(t.nodes, j).Ok?
    modifies t
    ensures Numberable(Join(old(t.nodes), j)) ==> t.Valid() && t.nodes == old(t.nodes)
    ensures Numberable(Join(old(t.nodes), j)) ==> SameButTable(t.State(), old(t.State()))
    ensures Numberable(Join(old(t.nodes), j)) ==> (t.State() == old(t.State()) <==> old(t.prefixIndex) != [])
  {
    ghost var c, before := t.With(t.nodes), t.State();
    JoinUndone(t.nodes, j);
    AddOne(t, j);
    if Numberable(t.nodes) {
      var was := t.RemoveNode(j.name);
      assert t.With(t.nodes) == c;
      RebuiltAgain(c, before, t.State());
    }
  }

  lemma JoinUndone(nodes: map<Name, Node>, j: Joining)
    requires CheckJoining(nodes, j).Ok?
    ensures Apply(nodes, Add(j)) == Join(nodes, j) && j.name in Join(nodes, j)
    ensures Join(nodes, j) - {j.name} == nodes
  {
  }

  ghost predicate SameButTable(v: View, w: View) {
    v.(prefixIndex := w.prefixIndex, indexBits := w.indexBits) == w
  }

  /** A rebuild changes nothing but to give a table to a topology that had none. */
  lemma RebuiltAgain(c: Cluster, v: View, w: View)
    requires Canonical(c, v) && Rebuilt(c, w)
    ensures SameButTable(w, v)
    ensures w == v <==> v.prefixIndex != []
  {
    MembershipDetermines(c, v, w);
  }

  // ---- Failures of many nodes at once ----

  /** `d` serves with the nodes `c` serves with, less those in `gone`. */
  ghost predicate LosesAll(c: Cluster, d: Cluster, gone: set<Name>) {
    c.h == d.h && c.ppw == d.ppw && LiveNames(d) == LiveNames(c) - gone &&
    forall n :: n in LiveNames(d) ==>
      n in LiveNames(c) && c.nodes[n].weight == d.nodes[n].weight && c.nodes[n].zone == d.nodes[n].zone
  }

  /** Taking nodes out loses exactly them. */
  lemma RemovalsLoseAll(c: Cluster, gone: set<Name>)
    requires WellFormed(c)
    ensures WellFormed(c.(nodes := c.nodes - gone)) && LosesAll(c, c.(nodes := c.nodes - gone), gone)
  {
  }

  /** However many nodes fail together, the surviving holders of a hash go on holding it. */
  lemma {:induction false} SurvivorsKeepCopies(c: Cluster, d: Cluster, gone: set<Name>, x: U64, copies: nat, n: Name)
    requires WellFormed(c) && WellFormed(d) && LosesAll(c, d, gone)
    requires n in Owners(c, x, copies) && n !in gone
    ensures n in Owners(d, x, copies)
    decreases |gone|
  {
    if gone == {} {
      NothingLost(c, d, x, copies);
    } else {
      var v :| v in gone;
      RemovalLoses(c, v);
      var e := ReplicasStable(c, Without(c, v), v, x, copies);
      OneLess(c, d, gone, v);
      SurvivorsKeepCopies(Without(c, v), d, gone - {v}, x, copies, n);
    }
  }

  /** Nodes join the holders of a hash only to replace holders that failed. */
  lemma NewHoldersReplace(c: Cluster, d: Cluster, gone: set<Name>, x: U64, copies: nat)
    requires WellFormed(c) && WellFormed(d) && LosesAll(c, d, gone)
    ensures
      var before, after := Elements(Owners(c, x, copies)), Elements(Owners(d, x, copies));
      |after - before| <= |before * gone|
  {
    var before, after := Elements(Owners(c, x, copies)), Elements(Owners(d, x, copies));
    HoldersCounted(c, x, copies);
    HoldersCounted(d, x, copies);
    MemberTable.SubsetSize(LiveNames(d), LiveNames(c));
    forall n | n in before - gone ensures n in after {
      SurvivorsKeepCopies(c, d, gone, x, copies, n);
    }
    Replaced(before, after, gone);
  }

  lemma HoldersCounted(c: Cluster, x: U64, copies: nat)
    requires WellFormed(c)
    ensures |Elements(Owners(c, x, copies))| == Min(copies, |LiveNames(c)|)
  {
    OwnersMeanWhatTheySay(c, x, copies);
    DistinctCount(Owners(c, x, copies));
  }

  lemma Replaced<T>(before: set<T>, after: set<T>, gone: set<T>)
    requires |after| <= |before| && before - gone <= after
    ensures |after - before| <= |before * gone|
  {
    assert after == (after - before) + (after * before);
    assert before == (before - gone) + (before * gone);
    assert |after| == |after - before| + |after * before|;
    assert |before| == |before - gone| + |before * gone|;
    MemberTable.SubsetSize(before - gone, after * before);
  }

  lemma NothingLost(c: Cluster, d: Cluster, x: U64, copies: nat)
    requires WellFormed(c) && WellFormed(d) && LosesAll(c, d, {})
    ensures Owners(d, x, copies) == Owners(c, x, copies)
  {
    assert Loses(c, d, []);
    OwnersServe(c, x, copies, []);
    var e := ReplicasStable(c, d, [], x, copies);
  }

  lemma OneLess(c: Cluster, d: Cluster, gone: set<Name>, v: Name)
    requires LosesAll(c, d, gone) && v in gone
    ensures LosesAll(Without(c, v), d, gone - {v})
  {
  }

  /** While the copies are no more than the failure domains, a domain holds at most one of them,
      so a domain that fails as a whole takes at most one copy of anything. */
  lemma DomainHoldsOneCopy(c: Cluster, x: U64, copies: nat, i: nat, j: nat)
    requires WellFormed(c) && copies <= |LiveDomains(c)|
    requires i < j < |Owners(c, x, copies)|
    ensures DomainOf(c.nodes, Owners(c, x, copies)[i]) != DomainOf(c.nodes, Owners(c, x, copies)[j])
  {
    var os := Owners(c, x, copies);
    OwnersMeanWhatTheySay(c, x, copies);
    DistinctDomains(c.nodes, os, i, j);
  }

  lemma DistinctDomains(nodes: map<Name, Node>, os: seq<Name>, i: nat, j: nat)
    requires i < j < |os| && |Domains(nodes, os)| == |os|
    ensures DomainOf(nodes, os[i]) != DomainOf(nodes, os[j])
  {
    if DomainOf(nodes, os[i]) == DomainOf(nodes, os[j]) {
      var rest := DropAt(os, j);
      DomainsAtMost(nodes, rest);
      MemberTable.SubsetSize(Domains(nodes, os), Domains(nodes, rest));
      assert false;
    }
  }

  /** When a whole failure domain goes, or a part of one, a hash keeps all but one of its holders,
      or all but one of the domains there were where the copies outnumber those. */
  lemma ZoneFailureCostsOneCopy(c: Cluster, d: Cluster, z: Domain, gone: set<Name>, x: U64, copies: nat)
    requires WellFormed(c) && WellFormed(d)
    requires LosesAll(c, d, gone) && forall n :: n in gone ==> DomainOf(c.nodes, n) == z
    ensures
      var before, after := Owners(c, x, copies), Owners(d, x, copies);
      |Elements(before) * Elements(after)| >= Min(|before|, |LiveDomains(c)|) - 1
  {
    var before, kept := Owners(c, x, copies), Elements(Owners(c, x, copies)) * Elements(Owners(d, x, copies));
    OwnersMeanWhatTheySay(c, x, copies);
    forall n | n in before && DomainOf(c.nodes, n) != z ensures n in kept {
      SurvivorsKeepCopies(c, d, gone, x, copies, n);
    }
    DomainsKept(c.nodes, before, kept, z);
  }

  /** Nodes that include all of `before` outside one domain are no fewer than its other domains. */
  lemma DomainsKept(nodes: map<Name, Node>, before: seq<Name>, kept: set<Name>, z: Domain)
    requires forall n :: n in before && DomainOf(nodes, n) != z ==> n in kept
    ensures |kept| >= |Domains(nodes, before)| - 1
  {
    assert Domains(nodes, before) <= DomainsIn(nodes, kept) + {z};
    MemberTable.SubsetSize(Domains(nodes, before), DomainsIn(nodes, kept) + {z});
    FewerDomains(nodes, kept);
  }

  /** With two copies and two domains to put them in, losing a domain never loses every copy. */
  lemma SomeCopySurvives(c: Cluster, d: Cluster, z: Domain, gone: set<Name>, x: U64, copies: nat)
    requires WellFormed(c) && WellFormed(d) && copies >= 2 && |LiveDomains(c)| >= 2
    requires LosesAll(c, d, gone) && forall n :: n in gone ==> DomainOf(c.nodes, n) == z
    ensures exists n :: n in Owners(c, x, copies) && n in Owners(d, x, copies)
  {
    ZoneFailureCostsOneCopy(c, d, z, gone, x, copies);
    OwnersMeanWhatTheySay(c, x, copies);
    FewerDomains(c.nodes, LiveNames(c));
    assert LiveDomains(c) == DomainsIn(c.nodes, LiveNames(c));
    var n :| n in Elements(Owners(c, x, copies)) * Elements(Owners(d, x, copies));
  }

  ghost function DomainsIn(nodes: map<Name, Node>, s: set<Name>): set<Domain> {
    set n | n in s :: DomainOf(nodes, n)
  }

  lemma {:induction false} FewerDomains(nodes: map<Name, Node>, s: set<Name>)
    ensures |DomainsIn(nodes, s)| <= |s|
  {
    if s != {} {
      var n :| n in s;
      FewerDomains(nodes, s - {n});
      assert DomainsIn(nodes, s) == DomainsIn(nodes, s - {n}) + {DomainOf(nodes, n)};
    }
  }

  // ---- Plans ----

  /** Every handoff of a plan carries some hash. */
  lemma HandoffCarries(plan: seq<Handoff>, i: nat) returns (x: U64)
    requires i < |plan| && plan[i].ranges != []
    ensures PlanCarries(plan, x, plan[i].from, plan[i].to)
  {
    x := plan[i].ranges[0].end;
    assert PlanCarriesAt(plan, i, 0, x, plan[i].from, plan[i].to);
  }

  /** No hash is claimed twice, by two handoffs or within one. */
  lemma HashClaimedOnce(c: Cluster, d: Cluster, plan: seq<Handoff>, i: nat, j: nat, k: nat, l: nat, x: U64)
    requires WellFormed(c) && WellFormed(d) && IsPlan(c, d, plan)
    requires i < |plan| && j < |plan[i].ranges| && Contains(plan[i].ranges[j], x)
    requires k < |plan| && l < |plan[k].ranges| && Contains(plan[k].ranges[l], x)
    ensures i == k && j == l
  {
    assert PlanCarriesAt(plan, i, j, x, plan[i].from, plan[i].to);
    assert PlanCarriesAt(plan, k, l, x, plan[k].from, plan[k].to);
    assert PlanCarries(plan, x, plan[i].from, plan[i].to) && PlanCarries(plan, x, plan[k].from, plan[k].to);
    SpacedOnce(plan[i].ranges, j, l, x);
  }

  lemma SpacedOnce(rs: seq<HashRange>, j: nat, l: nat, x: U64)
    requires WellSpaced(rs) && j < |rs| && l < |rs| && Contains(rs[j], x) && Contains(rs[l], x)
    ensures j == l
  {
  }

  /** A joining node only receives. */
  lemma JoinPlanFeedsNewcomer(c: Cluster, d: Cluster, v: Name, plan: seq<Handoff>, i: nat)
    requires WellFormed(c) && WellFormed(d) && Loses(d, c, v) && IsPlan(c, d, plan) && i < |plan|
    ensures plan[i].to == v && plan[i].from != v
  {
    var x := HandoffCarries(plan, i);
    JoinMovesOnlyToNewcomer(c, d, v, x);
  }

  /** A leaving node, or one going down, only sends. */
  lemma LeavePlanDrainsLeaver(c: Cluster, d: Cluster, v: Name, plan: seq<Handoff>, i: nat)
    requires WellFormed(c) && WellFormed(d) && Loses(c, d, v) && IsPlan(c, d, plan) && i < |plan|
    ensures plan[i].from == v && plan[i].to != v
  {
    var x := HandoffCarries(plan, i);
    LossMovesOnlyItsOwn(c, d, v, x);
  }

  /** What a join moves is exactly what the newcomer then owns, so that is what its plan counts. */
  lemma JoinPlanIsTheShare(c: Cluster, d: Cluster, v: Name, plan: seq<Handoff>)
    requires WellFormed(c) && WellFormed(d) && Loses(d, c, v) && LiveNames(c) != {} && IsPlan(c, d, plan)
    ensures PlanTotal(plan) == |OwnedBy(d, v)|
  {
    forall x: U64 ensures Moved(c, d, x).Some? <==> Owner(d, x) == Some(v) {
      LossMovesOnlyItsOwn(d, c, v, x);
    }
    assert MovedHashes(c, d) == OwnedBy(d, v);
  }

  ghost function OwnedBy(c: Cluster, v: Name): set<U64>
    requires WellFormed(c)
  {
    set x: U64 | 0 <= x < U64_SIZE && Owner(c, x) == Some(v)
  }

  /** The plan back moves the same hashes the other way. */
  lemma ReversePlan(c: Cluster, d: Cluster, plan: seq<Handoff>, back: seq<Handoff>)
    requires WellFormed(c) && WellFormed(d) && IsPlan(c, d, plan) && IsPlan(d, c, back)
    ensures forall x: U64, a: Name, b: Name :: PlanCarries(plan, x, a, b) <==> PlanCarries(back, x, b, a)
    ensures PlanTotal(plan) == PlanTotal(back)
  {
    forall x: U64, a: Name, b: Name ensures PlanCarries(plan, x, a, b) <==> PlanCarries(back, x, b, a) {
      assert Moved(c, d, x) == Some((a, b)) <==> Moved(d, c, x) == Some((b, a));
    }
    assert MovedHashes(c, d) == MovedHashes(d, c);
  }

  /** Between two memberships that differ only in nodes that are not serving nothing moves. */
  lemma IdleChangeMovesNothing(c: Cluster, d: Cluster, plan: seq<Handoff>)
    requires WellFormed(c) && WellFormed(d) && LosesAll(c, d, {}) && IsPlan(c, d, plan)
    ensures plan == []
  {
    assert Loses(c, d, []);
    forall x: U64 ensures Moved(c, d, x) == None {
      LossMovesOnlyItsOwn(c, d, [], x);
      OwnerIsNearest(c, x);
    }
    EmptyPlanMeansNoMove(c, d, plan);
  }

  /** A plan is empty exactly when no hash changes hands. */
  lemma EmptyPlanMeansNoMove(c: Cluster, d: Cluster, plan: seq<Handoff>)
    requires WellFormed(c) && WellFormed(d) && IsPlan(c, d, plan)
    ensures plan == [] <==> forall x: U64 :: Moved(c, d, x) == None
  {
  }

  /** Neighbouring hashes that make the same move are in one stretch: no run is handed over in parts. */
  lemma RunsUnbroken(c: Cluster, d: Cluster, plan: seq<Handoff>, x: U64, from: Name, to: Name) returns (i: nat, j: nat)
    requires WellFormed(c) && WellFormed(d) && IsPlan(c, d, plan)
    requires Moved(c, d, x) == Moved(c, d, (x + 1) % 0x1_0000_0000_0000_0000) == Some((from, to))
    ensures i < |plan| && plan[i].from == from && plan[i].to == to && j < |plan[i].ranges|
    ensures Contains(plan[i].ranges[j], x) && Contains(plan[i].ranges[j], (x + 1) % 0x1_0000_0000_0000_0000)
  {
    var y: U64 := (x + 1) % 0x1_0000_0000_0000_0000;
    assert PlanCarries(plan, x, from, to) && PlanCarries(plan, y, from, to);
    var k, l :| PlanCarriesAt(plan, k, l, x, from, to);
    var m, n :| PlanCarriesAt(plan, m, n, y, from, to);
    i, j := k, l;
    assert m == k;
    SpacedNeighbours(plan[i].ranges, l, n, x, y);
  }

  lemma SpacedNeighbours(rs: seq<HashRange>, j: nat, l: nat, x: U64, y: U64)
    requires WellSpaced(rs) && j < |rs| && l < |rs| && Contains(rs[j], x) && Contains(rs[l], y)
    requires y == (x + 1) % 0x1_0000_0000_0000_0000
    ensures Contains(rs[j], y)
  {
    NeighboursTouch(rs[j], rs[l], x, y);
  }

  /** A stretch that ends between two neighbouring hashes touches the one that begins there. */
  lemma NeighboursTouch(r: HashRange, s: HashRange, x: U64, y: U64)
    requires y == (x + 1) % 0x1_0000_0000_0000_0000
    ensures Contains(r, x) && !Contains(r, y) && Contains(s, y) && !Contains(s, x) ==> Touches(r, s)
  {
  }
}
