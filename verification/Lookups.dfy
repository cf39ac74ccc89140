/** The lookups: the table, the step to a live point, and the walk for copies. */
module Lookups {
  import opened Words
  import opened Names
  import opened Clusters
  import opened RingIndex
  import opened Placement
  import opened Replicas
  import opened MemberTable

  /** Reads where the slot of `x` begins and ends, and scans between the two. */
  method ScanSlot(ring: seq<Point>, table: seq<nat>, bits: nat, x: U64) returns (point: nat)
    requires bits <= 64 && table == Table(ring, bits)
    ensures point == Scanned(ring, bits, x)
    ensures |ring| < U32_SIZE ==> point == LowerBound(ring, x)
  {
    var slot := Slot(x, bits);
    SlotBrackets(ring, bits, x);
    point := table[slot];
    var from, end := point, table[slot + 1];
    while point < end && ring[point].hash < x
      invariant from <= point <= LowerBound(ring, x)
      invariant point == from || point <= end
    {
      point := point + 1;
    }
  }

  /** The first live point at or after step `k` of a walk, within one turn. */
  function LiveFrom(live: seq<bool>, ring: seq<Point>, start: nat, k: nat): Option<nat>
    requires InRange(ring, |live|) && k <= |ring|
    decreases |ring| - k
  {
    if k == |ring| then None
    else if LiveStep(live, ring, start, k) then Some(Around(start, k, |ring|))
    else LiveFrom(live, ring, start, k + 1)
  }

  method StepToLive(live: seq<bool>, ring: seq<Point>, index: nat) returns (r: Option<nat>)
    requires InRange(ring, |live|)
    ensures r == LiveFrom(live, ring, index, 0)
  {
    var points := |ring|;
    for step := 0 to points
      invariant LiveFrom(live, ring, index, 0) == LiveFrom(live, ring, index, step)
    {
      var candidate := (index + step) % points;
      if live[ring[candidate].node] {
        return Some(candidate);
      }
    }
    return None;
  }

  lemma {:induction false} LiveFromIs(live: seq<bool>, ring: seq<Point>, start: nat, k: nat) returns (step: nat)
    requires InRange(ring, |live|) && k <= |ring|
    ensures LiveFrom(live, ring, start, k).None? ==> forall j :: k <= j < |ring| ==> !LiveStep(live, ring, start, j)
    ensures LiveFrom(live, ring, start, k).Some? ==>
      && k <= step < |ring| && LiveStep(live, ring, start, step)
      && LiveFrom(live, ring, start, k) == Some(Around(start, step, |ring|))
      && forall j :: k <= j < step ==> !LiveStep(live, ring, start, j)
    decreases |ring| - k
  {
    step := k;
    if k < |ring| && !LiveStep(live, ring, start, k) {
      step := LiveFromIs(live, ring, start, k + 1);
    }
  }

  /** The member a lookup that starts at `start` answers with. */
  ghost function OwnerFrom(ms: seq<Name>, live: seq<bool>, ring: seq<Point>, start: nat): Option<Name>
    requires |live| == |ms| && InRange(ring, |ms|)
  {
    match LiveFrom(live, ring, start, 0)
    case None => None
    case Some(i) => if i < |ring| then Some(ms[ring[i].node]) else None
  }

  /** Nothing but the starting point matters, and what is found is the owner. */
  lemma OwnerFromIsOwner(c: Cluster, ms: seq<Name>, live: seq<bool>, ring: seq<Point>, x: U64)
    requires Placed(c, ms, live, ring) && ring != []
    ensures OwnerFrom(ms, live, ring, Successor(ring, x)) == Owner(c, x)
  {
    var start := Successor(ring, x);
    var step := LiveFromIs(live, ring, start, 0);
    if LiveFrom(live, ring, start, 0).Some? {
      FirstLiveHeads(c, ms, live, ring, x, step);
    } else {
      NoneLive(c, ms, live, ring, start);
    }
  }

  /** From whatever point it starts, a lookup answers with a node that serves, if any does. */
  lemma OwnerFromServes(c: Cluster, ms: seq<Name>, live: seq<bool>, ring: seq<Point>, start: nat)
    requires Placed(c, ms, live, ring) && start < |ring|
    ensures
      var r := OwnerFrom(ms, live, ring, start);
      (r.None? <==> LiveNames(c) == {}) && (r.Some? ==> r.value in LiveNames(c))
  {
    var step := LiveFromIs(live, ring, start, 0);
    if LiveFrom(live, ring, start, 0).Some? {
      StepIsOn(c, ms, live, ring, start, step);
    } else {
      NoneLive(c, ms, live, ring, start);
    }
  }

  lemma NoneLive(c: Cluster, ms: seq<Name>, live: seq<bool>, ring: seq<Point>, start: nat)
    requires Placed(c, ms, live, ring) && start < |ring|
    ensures (forall j :: 0 <= j < |ring| ==> !LiveStep(live, ring, start, j)) <==> LiveNames(c) == {}
  {
    if n :| n in LiveNames(c) {
      var p := HasPoint(c, n);
      var k := OnHasStep(c, ms, ring, start, p);
      StepIsOn(c, ms, live, ring, start, k);
    } else {
      forall j | 0 <= j < |ring| ensures !LiveStep(live, ring, start, j) {
        StepIsOn(c, ms, live, ring, start, j);
      }
    }
  }

  /** With no node live there is no live point to find, wherever the walk starts. */
  lemma NoFlagNoStep(c: Cluster, ms: seq<Name>, live: seq<bool>, ring: seq<Point>, start: nat)
    requires Placed(c, ms, live, ring) && LiveNames(c) == {}
    ensures LiveFrom(live, ring, start, 0) == None
  {
    var step := LiveFromIs(live, ring, start, 0);
    if LiveFrom(live, ring, start, 0).Some? {
      StepIsOn(c, ms, live, ring, start, step);
      assert false;
    }
  }

  lemma LiveFromBelow(live: seq<bool>, ring: seq<Point>, start: nat, k: nat)
    requires InRange(ring, |live|) && k <= |ring|
    ensures LiveFrom(live, ring, start, k).Some? ==> LiveFrom(live, ring, start, k).value < |ring|
  {
    var step := LiveFromIs(live, ring, start, k);
  }

  lemma OwnersClamp(c: Cluster, x: U64, copies: nat)
    requires WellFormed(c)
    ensures Owners(c, x, copies) == Owners(c, x, Min(copies, |LiveNames(c)|))
    ensures LiveNames(c) == {} || copies == 0 ==> Owners(c, x, copies) == []
  {
    var o := Order(c, x);
    SpreadPermutes(c.nodes, o, {});
    assert |Spread(c.nodes, o)| == |multiset(Spread(c.nodes, o))| == |o|;
  }

  lemma EmptyRingEmptyCluster(c: Cluster, ms: seq<Name>, ring: seq<Point>)
    requires WellFormed(c) && Lists(c, ms) && IsRing(c, ms, ring) && ring == []
    ensures LiveNames(c) == {}
  {
  }

  // ---- Copies ----

  function NamesOf(ms: seq<Name>, s: seq<nat>): (r: seq<Name>)
    requires forall i :: 0 <= i < |s| ==> s[i] < |ms|
    ensures |r| == |s| && forall i :: 0 <= i < |s| ==> r[i] == ms[s[i]]
  {
    seq(|s|, i requires 0 <= i < |s| => ms[s[i]])
  }

  /** The walk so far, `o` in names, is split between `owners` and `crowded`. */
  ghost predicate Split(nodes: map<Name, Node>, ms: seq<Name>, o: seq<Name>, owners: seq<nat>, crowded: seq<nat>) {
    && (forall i :: 0 <= i < |owners| ==> owners[i] < |ms|)
    && (forall i :: 0 <= i < |crowded| ==> crowded[i] < |ms|)
    && NamesOf(ms, owners) == Firsts(nodes, o, {})
    && NamesOf(ms, crowded) == Crowded(nodes, o, {})
  }

  lemma SplitHolds(nodes: map<Name, Node>, ms: seq<Name>, o: seq<Name>, owners: seq<nat>, crowded: seq<nat>, node: nat)
    requires Distinct(ms) && Split(nodes, ms, o, owners, crowded) && node < |ms|
    ensures node in owners || node in crowded <==> ms[node] in o
  {
    SpreadPermutes(nodes, o, {});
    var f, r := NamesOf(ms, owners), NamesOf(ms, crowded);
    assert ms[node] in f + r <==> ms[node] in multiset(f + r);
    assert ms[node] in f <==> node in owners by { NamesHold(ms, owners, node); }
    assert ms[node] in r <==> node in crowded by { NamesHold(ms, crowded, node); }
  }

  lemma NamesHold(ms: seq<Name>, s: seq<nat>, node: nat)
    requires Distinct(ms) && node < |ms| && forall i :: 0 <= i < |s| ==> s[i] < |ms|
    ensures ms[node] in NamesOf(ms, s) <==> node in s
  {
  }

  lemma SplitFirst(nodes: map<Name, Node>, ms: seq<Name>, o: seq<Name>, owners: seq<nat>, crowded: seq<nat>, node: nat)
    requires Split(nodes, ms, o, owners, crowded) && node < |ms|
    requires DomainOf(nodes, ms[node]) !in Domains(nodes, o)
    ensures Split(nodes, ms, o + [ms[node]], owners + [node], crowded)
  {
    SplitSpread(nodes, o, ms[node]);
  }

  lemma SplitCrowded(nodes: map<Name, Node>, ms: seq<Name>, o: seq<Name>, owners: seq<nat>, crowded: seq<nat>,
                     node: nat)
    requires Split(nodes, ms, o, owners, crowded) && node < |ms|
    requires DomainOf(nodes, ms[node]) in Domains(nodes, o)
    ensures Split(nodes, ms, o + [ms[node]], owners, crowded + [node])
  {
    SplitSpread(nodes, o, ms[node]);
  }

  lemma SplitSpread(nodes: map<Name, Node>, o: seq<Name>, n: Name)
    ensures
      var again := DomainOf(nodes, n) in Domains(nodes, o);
      && Firsts(nodes, o + [n], {}) == Firsts(nodes, o, {}) + (if again then [] else [n])
      && Crowded(nodes, o + [n], {}) == Crowded(nodes, o, {}) + (if again then [n] else [])
  {
    SpreadConcat(nodes, o, [n], {});
    SpreadOne(nodes, n, Domains(nodes, o));
    assert {} + Domains(nodes, o) == Domains(nodes, o);
  }

  /** The domains used so far, by number. */
  ghost predicate UsedBy(domains: seq<nat>, owners: seq<nat>, used: seq<nat>) {
    |used| == |owners| && forall i :: 0 <= i < |owners| ==> owners[i] < |domains| && used[i] == domains[owners[i]]
  }

  /** A number has been used exactly when some node met so far is of that domain. */
  lemma UsedMeansMet(nodes: map<Name, Node>, ms: seq<Name>, domains: seq<nat>, o: seq<Name>,
                     owners: seq<nat>, crowded: seq<nat>, used: seq<nat>, node: nat)
    requires domains == Numbers(DomainSeq(nodes, ms)) && node < |ms|
    requires Split(nodes, ms, o, owners, crowded) && UsedBy(domains, owners, used)
    ensures domains[node] in used <==> DomainOf(nodes, ms[node]) in Domains(nodes, o)
  {
    var f := Firsts(nodes, o, {});
    FirstsCover(nodes, o, {});
    UsedIff(nodes, ms, domains, f, owners, used, node);
  }

  lemma UsedIff(nodes: map<Name, Node>, ms: seq<Name>, domains: seq<nat>, f: seq<Name>,
                owners: seq<nat>, used: seq<nat>, node: nat)
    requires domains == Numbers(DomainSeq(nodes, ms)) && node < |ms| && UsedBy(domains, owners, used)
    requires |f| == |owners| && forall i :: 0 <= i < |f| ==> f[i] == ms[owners[i]]
    ensures domains[node] in used <==> DomainOf(nodes, ms[node]) in Domains(nodes, f)
  {
    var ds := DomainSeq(nodes, ms);
    if domains[node] in used {
      var i :| 0 <= i < |used| && used[i] == domains[node];
      NumberInjective(ds, ds[node], ds[owners[i]]);
    }
  }

  /** A walk may stop once it has enough nodes and no domain left to find. */
  lemma EarlyExit(nodes: map<Name, Node>, o: seq<Name>, full: seq<Name>, wanted: nat)
    requires o <= full
    requires
      || |Firsts(nodes, o, {})| == wanted
      || (|Spread(nodes, o)| >= wanted && Domains(nodes, full) <= Domains(nodes, o))
    ensures wanted <= |Spread(nodes, o)| && wanted <= |Spread(nodes, full)|
    ensures Spread(nodes, o)[..wanted] == Spread(nodes, full)[..wanted]
  {
    var e := full[|o|..];
    assert full == o + e;
    SpreadConcat(nodes, o, e, {});
    var u := {} + Domains(nodes, o);
    if |Firsts(nodes, o, {})| != wanted {
      FirstsCover(nodes, e, u);
    }
    SamePrefix(Firsts(nodes, o, {}), Firsts(nodes, e, u), Crowded(nodes, o, {}), Crowded(nodes, e, u), wanted);
  }

  lemma SamePrefix(f: seq<Name>, fe: seq<Name>, r: seq<Name>, re: seq<Name>, wanted: nat)
    requires |f| == wanted || (|fe| == 0 && |f + r| >= wanted)
    ensures wanted <= |f + r| && wanted <= |f + fe + (r + re)|
    ensures (f + r)[..wanted] == (f + fe + (r + re))[..wanted]
  {
  }

  /** The walk has stopped early with nothing left to find, or has gone all the way round. */
  ghost predicate Settled(c: Cluster, o: seq<Name>, wanted: nat, domainCount: nat) {
    || |Firsts(c.nodes, o, {})| == wanted
    || (|Spread(c.nodes, o)| >= wanted && |Firsts(c.nodes, o, {})| == domainCount)
  }

  /** A settled walk has the answer of the full one. */
  lemma SettledAnswers(c: Cluster, full: seq<Name>, o: seq<Name>, wanted: nat)
    requires ListsLive(c, full) && wanted <= |LiveNames(c)| && o <= full
    requires o == full || Settled(c, o, wanted, |LiveDomains(c)|)
    ensures wanted <= |Spread(c.nodes, o)|
    ensures Cut(Spread(c.nodes, full), wanted) == Spread(c.nodes, o)[..wanted]
  {
    SpreadPermutes(c.nodes, full, {});
    DistinctCount(full);
    assert |Spread(c.nodes, full)| == |multiset(Spread(c.nodes, full))| == |full|;
    if o != full {
      if |Firsts(c.nodes, o, {})| != wanted {
        AllDomainsMet(c, full, o);
      }
      EarlyExit(c.nodes, o, full, wanted);
    }
  }

  lemma AllDomainsMet(c: Cluster, full: seq<Name>, o: seq<Name>)
    requires ListsLive(c, full) && o <= full && |Firsts(c.nodes, o, {})| == |LiveDomains(c)|
    ensures Domains(c.nodes, full) <= Domains(c.nodes, o)
  {
    ListedDomains(c, full);
    FirstsCover(c.nodes, o, {});
    assert Domains(c.nodes, o) - {} == Domains(c.nodes, o);
    assert forall n :: n in o ==> n in full;
    if Domains(c.nodes, o) != LiveDomains(c) {
      SubsetSize(Domains(c.nodes, o), LiveDomains(c));
    }
  }

  /** What a walk keeps: nodes taken, the numbers of their domains, and nodes kept back. */
  datatype Tally = Tally(owners: seq<nat>, used: seq<nat>, crowded: seq<nat>)

  ghost function Meet(t: Tally, live: bool, node: nat, domain: nat): Tally {
    if !live || node in t.owners || node in t.crowded then t
    else if domain in t.used then t.(crowded := t.crowded + [node])
    else t.(owners := t.owners + [node], used := t.used + [domain])
  }

  /** The tally after `k` steps. */
  ghost function TallyAt(live: seq<bool>, domains: seq<nat>, ring: seq<Point>, start: nat, k: nat): Tally
    requires |domains| == |live| && InRange(ring, |live|) && ring != []
  {
    if k == 0 then Tally([], [], [])
    else
      var node := ring[Around(start, k - 1, |ring|)].node;
      Meet(TallyAt(live, domains, ring, start, k - 1), live[node], node, domains[node])
  }

  /** The tally sorts the nodes of the walk `o` into owners and crowded. */
  ghost predicate Sorts(nodes: map<Name, Node>, ms: seq<Name>, domains: seq<nat>, o: seq<Name>, t: Tally) {
    Split(nodes, ms, o, t.owners, t.crowded) && UsedBy(domains, t.owners, t.used)
  }

  /** One step sorts the node it meets, by the three tests it makes. */
  lemma SortsMore(nodes: map<Name, Node>, ms: seq<Name>, domains: seq<nat>, o: seq<Name>, t: Tally, live: bool,
                  node: nat)
    requires Distinct(ms) && domains == Numbers(DomainSeq(nodes, ms)) && node < |ms|
    requires Sorts(nodes, ms, domains, o, t)
    ensures Sorts(nodes, ms, domains, if live && ms[node] !in o then o + [ms[node]] else o,
                  Meet(t, live, node, domains[node]))
  {
    SplitHolds(nodes, ms, o, t.owners, t.crowded, node);
    if live && ms[node] !in o {
      UsedMeansMet(nodes, ms, domains, o, t.owners, t.crowded, t.used, node);
      if domains[node] in t.used {
        SplitCrowded(nodes, ms, o, t.owners, t.crowded, node);
      } else {
        SplitFirst(nodes, ms, o, t.owners, t.crowded, node);
      }
    }
  }

  lemma {:induction false} TallySorts(nodes: map<Name, Node>, ms: seq<Name>, live: seq<bool>, domains: seq<nat>,
                                      ring: seq<Point>, start: nat, k: nat)
    requires Distinct(ms) && |live| == |ms| && InRange(ring, |ms|) && ring != []
    requires domains == Numbers(DomainSeq(nodes, ms))
    ensures Sorts(nodes, ms, domains, Walk(ms, live, ring, start, k), TallyAt(live, domains, ring, start, k))
    decreases k
  {
    if k > 0 {
      TallySorts(nodes, ms, live, domains, ring, start, k - 1);
      var node := ring[Around(start, k - 1, |ring|)].node;
      var o, t := Walk(ms, live, ring, start, k - 1), TallyAt(live, domains, ring, start, k - 1);
      SortsMore(nodes, ms, domains, o, t, live[node], node);
    }
  }

  /** Where the walk stops, the nodes it has sorted hold the answer of a full turn. */
  lemma WalkAnswers(c: Cluster, ms: seq<Name>, live: seq<bool>, domains: seq<nat>, ring: seq<Point>, start: nat, k: nat,
                    t: Tally, wanted: nat)
    requires Placed(c, ms, live, ring) && start < |ring| && k <= |ring| && wanted <= |LiveNames(c)|
    requires Sorts(c.nodes, ms, domains, Walk(ms, live, ring, start, k), t)
    requires k == |ring| || Enough(t, wanted, |LiveDomains(c)|)
    ensures wanted <= |t.owners| + |t.crowded|
    ensures (NamesOf(ms, t.owners) + NamesOf(ms, t.crowded))[..wanted] ==
            Cut(Spread(c.nodes, Walk(ms, live, ring, start, |ring|)), wanted)
  {
    TurnMeetsAll(c, ms, live, ring, start);
    WalkExtends(ms, live, ring, start, k, |ring|);
    SettledAnswers(c, Walk(ms, live, ring, start, |ring|), Walk(ms, live, ring, start, k), wanted);
  }

  /** The answer of a full turn is well placed, and from the successor of `x` it is the holders of `x`. */
  lemma TurnAnswers(c: Cluster, ms: seq<Name>, live: seq<bool>, ring: seq<Point>, start: nat, wanted: nat, x: U64)
    requires Placed(c, ms, live, ring) && start < |ring|
    ensures
      var names := Cut(Spread(c.nodes, Walk(ms, live, ring, start, |ring|)), wanted);
      WellPlaced(c, names, wanted) && (start == Successor(ring, x) ==> names == Owners(c, x, wanted))
  {
    TurnMeetsAll(c, ms, live, ring, start);
    SpreadPlacesWell(c, Walk(ms, live, ring, start, |ring|), wanted);
    if start == Successor(ring, x) {
      FullWalk(c, ms, live, ring, x);
      WalkUnique(c, x, Order(c, x), Walk(ms, live, ring, start, |ring|));
    }
  }

  /** The tally has its owners, or has nodes to fill up from and one owner in every live domain. */
  predicate Enough(t: Tally, wanted: nat, domainCount: nat) {
    |t.owners| == wanted || (|t.owners| + |t.crowded| >= wanted && |t.used| == domainCount)
  }

  /** Tallies the nodes met from `start` on, until the tally is enough or the ring is done. */
  method WalkRing(live: seq<bool>, domains: seq<nat>, ring: seq<Point>, start: nat, wanted: nat, domainCount: nat)
    returns (t: Tally, ghost done: nat)
    requires |domains| == |live| && InRange(ring, |live|) && ring != [] && wanted > 0
    ensures done <= |ring| && |t.owners| <= wanted
    ensures t == TallyAt(live, domains, ring, start, done)
    ensures done == |ring| || Enough(t, wanted, domainCount)
  {
    var owners: seq<nat>, used: seq<nat>, crowded: seq<nat> := [], [], [];
    done := 0;
    for step := 0 to |ring|
      invariant done == step && |owners| < wanted
      invariant Tally(owners, used, crowded) == TallyAt(live, domains, ring, start, step)
    {
      done := step + 1;
      var node := ring[(start + step) % |ring|].node;
      if live[node] && node !in owners && node !in crowded {
        var domain := domains[node];
        if domain in used {
          crowded := crowded + [node];
        } else {
          owners, used := owners + [node], used + [domain];
        }
        if |owners| == wanted || (|owners| + |crowded| >= wanted && |used| == domainCount) {
          break;
        }
      }
    }
    t := Tally(owners, used, crowded);
  }

  /** The copies: what the walk took, filled up from what it kept back. */
  method PlaceCopies(ms: seq<Name>, live: seq<bool>, domains: seq<nat>, ring: seq<Point>, start: nat,
                     wanted: nat, domainCount: nat, ghost c: Cluster, ghost x: U64) returns (names: seq<Name>)
    requires Placed(c, ms, live, ring) && start < |ring|
    requires domains == Numbers(DomainSeq(c.nodes, ms)) && domainCount == |LiveDomains(c)|
    requires 0 < wanted <= |LiveNames(c)|
    ensures WellPlaced(c, names, wanted)
    ensures start == Successor(ring, x) ==> names == Owners(c, x, wanted)
  {
    AscendingIsDistinct(ms);
    var t, done := WalkRing(live, domains, ring, start, wanted, domainCount);
    TallySorts(c.nodes, ms, live, domains, ring, start, done);
    WalkAnswers(c, ms, live, domains, ring, start, done, t, wanted);
    TurnAnswers(c, ms, live, ring, start, wanted, x);
    names := FillFromCrowded(ms, t.owners, t.crowded, wanted);
  }

  method FillFromCrowded(ms: seq<Name>, owners: seq<nat>, crowded: seq<nat>, wanted: nat) returns (names: seq<Name>)
    requires forall i :: 0 <= i < |owners| ==> owners[i] < |ms|
    requires forall i :: 0 <= i < |crowded| ==> crowded[i] < |ms|
    requires |owners| <= wanted <= |owners| + |crowded|
    ensures names == (NamesOf(ms, owners) + NamesOf(ms, crowded))[..wanted]
  {
    var all := owners;
    for i := 0 to |crowded|
      invariant |all| <= wanted
      invariant all == owners + crowded[..i]
    {
      if |all| == wanted {
        break;
      }
      all := all + [crowded[i]];
    }
    assert all == (owners + crowded)[..wanted];
    names := NamesOf(ms, all);
  }
}
