/** What has to move between two memberships. */
module Handoffs {
  import opened Words
  import opened Names
  import opened Clusters
  import opened Placement
  import opened HashRanges
  import opened Moves

  /** The stretches that go from one node to another. */
  datatype Handoff = Handoff(from: Name, to: Name, ranges: seq<HashRange>)

  /** The move a hash makes from `c` to `d`: from its owner before to its owner after, when there
      are both and they differ. */
  ghost function Moved(c: Cluster, d: Cluster, x: U64): Option<(Name, Name)>
    requires WellFormed(c) && WellFormed(d)
  {
    MovedBetween(Owner(c, x), Owner(d, x))
  }

  ghost function MovedBetween(before: Option<Name>, after: Option<Name>): Option<(Name, Name)> {
    if before.Some? && after.Some? && before != after then Some((before.value, after.value)) else None
  }

  // ---- One handoff for each pair of nodes ----

  /** The stretches that move between two nodes, in order. */
  ghost function RangesFor(es: seq<Move>, from: Name, to: Name): seq<HashRange> {
    if es == [] then []
    else
      var last := es[|es| - 1];
      RangesFor(es[..|es| - 1], from, to) + (if last.from == from && last.to == to then [last.range] else [])
  }

  lemma {:induction false} RangesForHolds(es: seq<Move>, from: Name, to: Name, r: HashRange)
    ensures r in RangesFor(es, from, to) <==> Move(r, from, to) in es
  {
    if es != [] {
      RangesForHolds(es[..|es| - 1], from, to, r);
    }
  }

  /** The stretches of one handoff neither overlap nor touch. */
  ghost predicate WellSpaced(rs: seq<HashRange>) {
    forall i, j :: 0 <= i < j < |rs| ==> Disjoint(rs[i], rs[j]) && !Touches(rs[i], rs[j]) && !Touches(rs[j], rs[i])
  }

  lemma {:induction false} RangesSpaced(es: seq<Move>, from: Name, to: Name)
    requires Apart(es) && PairwiseDisjoint(es)
    ensures WellSpaced(RangesFor(es, from, to))
  {
    if es != [] {
      var m := |es| - 1;
      var earlier, last := es[..m], es[m];
      var rs := RangesFor(earlier, from, to);
      RangesSpaced(earlier, from, to);
      if last.from == from && last.to == to {
        forall i | 0 <= i < |rs|
          ensures Disjoint(rs[i], last.range) && !Touches(rs[i], last.range) && !Touches(last.range, rs[i])
        {
          RangesForHolds(earlier, from, to, rs[i]);
          var k :| 0 <= k < m && es[k] == Move(rs[i], from, to);
        }
      }
    }
  }

  predicate IsFor(p: Handoff, e: Move) {
    p.from == e.from && p.to == e.to
  }

  ghost predicate DistinctPairs(plan: seq<Handoff>) {
    forall i, j :: 0 <= i < j < |plan| ==> plan[i].from != plan[j].from || plan[i].to != plan[j].to
  }

  /** Every move is in the handoff of its pair, and every handoff holds the moves of its pair. */
  ghost predicate Grouped(es: seq<Move>, plan: seq<Handoff>) {
    && DistinctPairs(plan)
    && (forall i :: 0 <= i < |plan| ==>
          plan[i].ranges == RangesFor(es, plan[i].from, plan[i].to) && plan[i].ranges != [])
    && (forall k :: 0 <= k < |es| ==> HasHandoff(plan, es[k]))
  }

  ghost predicate HasHandoff(plan: seq<Handoff>, e: Move) {
    exists i :: 0 <= i < |plan| && IsFor(plan[i], e)
  }

  lemma GroupedJoins(es: seq<Move>, e: Move, plan: seq<Handoff>, i: nat)
    requires Grouped(es, plan) && i < |plan| && IsFor(plan[i], e)
    ensures Grouped(es + [e], plan[i := plan[i].(ranges := plan[i].ranges + [e.range])])
  {
    var fs, after := es + [e], plan[i := plan[i].(ranges := plan[i].ranges + [e.range])];
    forall k | 0 <= k < |fs| ensures HasHandoff(after, fs[k]) {
      if k < |es| {
        var m :| 0 <= m < |plan| && IsFor(plan[m], es[k]);
        assert IsFor(after[m], fs[k]);
      } else {
        assert IsFor(after[i], fs[k]);
      }
    }
  }

  lemma {:induction false} NoRanges(es: seq<Move>, e: Move)
    requires forall k :: 0 <= k < |es| ==> !SamePair(es[k], e)
    ensures RangesFor(es, e.from, e.to) == []
  {
    if es != [] {
      NoRanges(es[..|es| - 1], e);
    }
  }

  lemma OtherPairs(es: seq<Move>, e: Move, plan: seq<Handoff>)
    requires Grouped(es, plan) && forall i :: 0 <= i < |plan| ==> !IsFor(plan[i], e)
    ensures RangesFor(es, e.from, e.to) == []
  {
    NoRanges(es, e);
  }

  lemma RangesForAppend(es: seq<Move>, e: Move, from: Name, to: Name)
    ensures RangesFor(es + [e], from, to) ==
      RangesFor(es, from, to) + if e.from == from && e.to == to then [e.range] else []
  {
  }

  lemma GroupedAdds(es: seq<Move>, e: Move, plan: seq<Handoff>)
    requires Grouped(es, plan) && forall i :: 0 <= i < |plan| ==> !IsFor(plan[i], e)
    ensures Grouped(es + [e], plan + [Handoff(e.from, e.to, [e.range])])
  {
    var fs, after := es + [e], plan + [Handoff(e.from, e.to, [e.range])];
    OtherPairs(es, e, plan);
    forall i | 0 <= i < |after| ensures after[i].ranges == RangesFor(fs, after[i].from, after[i].to) {
      RangesForAppend(es, e, after[i].from, after[i].to);
      if i < |plan| {
        assert !IsFor(plan[i], e);
      }
    }
    forall k | 0 <= k < |fs| ensures HasHandoff(after, fs[k]) {
      if k < |es| {
        assert HasHandoff(plan, es[k]);
        var m :| 0 <= m < |plan| && IsFor(plan[m], es[k]);
        assert IsFor(after[m], fs[k]);
      } else {
        assert IsFor(after[|plan|], fs[k]);
      }
    }
  }

  function RangeTotal(rs: seq<HashRange>): nat {
    if rs == [] then 0 else RangeTotal(rs[..|rs| - 1]) + Count(rs[|rs| - 1])
  }

  /** How many hashes a plan moves: the sum of its handoffs' counts. */
  function PlanTotal(plan: seq<Handoff>): nat {
    if plan == [] then 0 else PlanTotal(plan[..|plan| - 1]) + RangeTotal(plan[|plan| - 1].ranges)
  }

  function MoveTotal(es: seq<Move>): nat {
    if es == [] then 0 else MoveTotal(es[..|es| - 1]) + Count(es[|es| - 1].range)
  }

  lemma {:induction false} TotalJoins(plan: seq<Handoff>, i: nat, r: HashRange)
    requires i < |plan|
    ensures PlanTotal(plan[i := plan[i].(ranges := plan[i].ranges + [r])]) == PlanTotal(plan) + Count(r)
  {
    var m := |plan| - 1;
    if i == m {
    } else {
      TotalJoins(plan[..m], i, r);
    }
  }

  lemma TotalAdds(plan: seq<Handoff>, e: Move)
    ensures PlanTotal(plan + [Handoff(e.from, e.to, [e.range])]) == PlanTotal(plan) + Count(e.range)
  {
    assert RangeTotal([e.range]) == RangeTotal([e.range][..0]) + Count(e.range);
  }

  /** The handoffs hold the first `k` moves. */
  ghost predicate Gathered(es: seq<Move>, k: nat, plan: seq<Handoff>)
    requires k <= |es|
  {
    Grouped(es[..k], plan) && PlanTotal(plan) == MoveTotal(es[..k])
  }

  lemma GatheredJoins(es: seq<Move>, k: nat, plan: seq<Handoff>, i: nat)
    requires k < |es| && Gathered(es, k, plan) && i < |plan| && IsFor(plan[i], es[k])
    ensures Gathered(es, k + 1, plan[i := plan[i].(ranges := plan[i].ranges + [es[k].range])])
  {
    assert es[..k + 1] == es[..k] + [es[k]] && es[..k + 1][..k] == es[..k];
    GroupedJoins(es[..k], es[k], plan, i);
    TotalJoins(plan, i, es[k].range);
  }

  lemma GatheredAdds(es: seq<Move>, k: nat, plan: seq<Handoff>)
    requires k < |es| && Gathered(es, k, plan) && forall i :: 0 <= i < |plan| ==> !IsFor(plan[i], es[k])
    ensures Gathered(es, k + 1, plan + [Handoff(es[k].from, es[k].to, [es[k].range])])
  {
    assert es[..k + 1] == es[..k] + [es[k]] && es[..k + 1][..k] == es[..k];
    GroupedAdds(es[..k], es[k], plan);
    TotalAdds(plan, es[k]);
  }

  /** Gathers the moves between each pair of nodes into one handoff. */
  method GroupByPair(es: seq<Move>) returns (plan: seq<Handoff>)
    ensures Grouped(es, plan) && PlanTotal(plan) == MoveTotal(es)
  {
    plan := [];
    for k := 0 to |es|
      invariant Gathered(es, k, plan)
    {
      var e := es[k];
      var i := FindPair(plan, e);
      if i < |plan| {
        GatheredJoins(es, k, plan, i);
        plan := plan[i := plan[i].(ranges := plan[i].ranges + [e.range])];
      } else {
        GatheredAdds(es, k, plan);
        plan := plan + [Handoff(e.from, e.to, [e.range])];
      }
    }
    assert es[..|es|] == es;
  }

  method FindPair(plan: seq<Handoff>, e: Move) returns (i: nat)
    ensures i <= |plan| && (i < |plan| ==> IsFor(plan[i], e))
    ensures forall j :: 0 <= j < i ==> !IsFor(plan[j], e)
  {
    i := 0;
    while i < |plan| && !IsFor(plan[i], e)
      invariant i <= |plan| && forall j :: 0 <= j < i ==> !IsFor(plan[j], e)
    {
      i := i + 1;
    }
  }

  // ---- The plan ----

  ghost predicate PlanCarries(plan: seq<Handoff>, x: U64, from: Name, to: Name) {
    exists i, j :: PlanCarriesAt(plan, i, j, x, from, to)
  }

  ghost predicate PlanCarriesAt(plan: seq<Handoff>, i: int, j: int, x: U64, from: Name, to: Name) {
    && 0 <= i < |plan| && plan[i].from == from && plan[i].to == to
    && 0 <= j < |plan[i].ranges| && Contains(plan[i].ranges[j], x)
  }

  lemma GroupedCarries(es: seq<Move>, plan: seq<Handoff>, x: U64, from: Name, to: Name)
    requires Grouped(es, plan)
    ensures PlanCarries(plan, x, from, to) <==> Carries(es, x, from, to)
  {
    if PlanCarries(plan, x, from, to) {
      var i, j :| PlanCarriesAt(plan, i, j, x, from, to);
      RangesForHolds(es, from, to, plan[i].ranges[j]);
      var k :| 0 <= k < |es| && es[k] == Move(plan[i].ranges[j], from, to);
      assert CarriesAt(es, k, x, from, to);
    }
    if Carries(es, x, from, to) {
      var k :| CarriesAt(es, k, x, from, to);
      var i :| 0 <= i < |plan| && IsFor(plan[i], es[k]);
      RangesForHolds(es, from, to, es[k].range);
      var j :| 0 <= j < |plan[i].ranges| && plan[i].ranges[j] == es[k].range;
      assert PlanCarriesAt(plan, i, j, x, from, to);
    }
  }

  ghost function MovedHashes(c: Cluster, d: Cluster): set<U64>
    requires WellFormed(c) && WellFormed(d)
  {
    set x: U64 | 0 <= x < U64_SIZE && Moved(c, d, x).Some?
  }

  /** The plan is exact: a hash lies in a stretch of the handoff from `a` to `b` exactly when its
      owner changes from `a` to `b`. Each pair has one handoff, no two of a handoff's stretches
      overlap or touch, and the counts add up to the number of hashes that move. */
  ghost predicate IsPlan(c: Cluster, d: Cluster, plan: seq<Handoff>)
    requires WellFormed(c) && WellFormed(d)
  {
    && (forall x: U64, from: Name, to: Name :: PlanCarries(plan, x, from, to) <==> Moved(c, d, x) == Some((from, to)))
    && DistinctPairs(plan)
    && (forall i :: 0 <= i < |plan| ==> plan[i].ranges != [] && WellSpaced(plan[i].ranges))
    && PlanTotal(plan) == |MovedHashes(c, d)|
  }

  ghost predicate IsCovered(es: seq<Move>, x: U64) {
    exists k :: 0 <= k < |es| && Contains(es[k].range, x)
  }

  ghost function Covered(es: seq<Move>): set<U64> {
    set x: U64 | 0 <= x < U64_SIZE && IsCovered(es, x)
  }

  lemma CoveredOneMore(es: seq<Move>, m: nat)
    requires |es| == m + 1
    ensures Covered(es) == Covered(es[..m]) + Hashes(es[m].range)
  {
  }

  lemma {:induction false} TotalIsCovered(es: seq<Move>)
    requires PairwiseDisjoint(es)
    ensures MoveTotal(es) == |Covered(es)|
  {
    if es == [] {
    } else {
      var m := |es| - 1;
      TotalIsCovered(es[..m]);
      CountIsSize(es[m].range);
      CoveredOneMore(es, m);
    }
  }

  /** Every hash that moves is carried once by the moves, so their group is the plan. */
  lemma GroupIsPlan(c: Cluster, d: Cluster, es: seq<Move>, plan: seq<Handoff>)
    requires WellFormed(c) && WellFormed(d) && Apart(es) && PairwiseDisjoint(es)
    requires Grouped(es, plan) && PlanTotal(plan) == MoveTotal(es)
    requires forall x: U64, from: Name, to: Name :: Carries(es, x, from, to) <==> Moved(c, d, x) == Some((from, to))
    ensures IsPlan(c, d, plan)
  {
    forall x: U64, from: Name, to: Name ensures PlanCarries(plan, x, from, to) <==> Moved(c, d, x) == Some((from, to)) {
      GroupedCarries(es, plan, x, from, to);
    }
    forall i | 0 <= i < |plan| ensures WellSpaced(plan[i].ranges) {
      RangesSpaced(es, plan[i].from, plan[i].to);
    }
    TotalIsCovered(es);
    CoveredIsMoved(c, d, es);
  }

  lemma CoveredIsMoved(c: Cluster, d: Cluster, es: seq<Move>)
    requires WellFormed(c) && WellFormed(d)
    requires forall x: U64, from: Name, to: Name :: Carries(es, x, from, to) <==> Moved(c, d, x) == Some((from, to))
    ensures Covered(es) == MovedHashes(c, d)
  {
    forall x: U64 ensures x in Covered(es) <==> x in MovedHashes(c, d) {
      if x in Covered(es) {
        var k :| 0 <= k < |es| && Contains(es[k].range, x);
        assert CarriesAt(es, k, x, es[k].from, es[k].to);
        assert Carries(es, x, es[k].from, es[k].to);
      }
      if x in MovedHashes(c, d) {
        var pair := Moved(c, d, x).value;
        assert Carries(es, x, pair.0, pair.1);
        var k :| CarriesAt(es, k, x, pair.0, pair.1);
      }
    }
  }

  // ---- What one handoff counts ----

  ghost function PairHashes(c: Cluster, d: Cluster, from: Name, to: Name): set<U64>
    requires WellFormed(c) && WellFormed(d)
  {
    set x: U64 | 0 <= x < U64_SIZE && Moved(c, d, x) == Some((from, to))
  }

  ghost function MovesOf(h: Handoff): (es: seq<Move>)
    ensures |es| == |h.ranges| && forall i :: 0 <= i < |es| ==> es[i] == Move(h.ranges[i], h.from, h.to)
  {
    seq(|h.ranges|, i requires 0 <= i < |h.ranges| => Move(h.ranges[i], h.from, h.to))
  }

  lemma {:induction false} MovesOfTotal(h: Handoff)
    ensures MoveTotal(MovesOf(h)) == RangeTotal(h.ranges)
    decreases |h.ranges|
  {
    if h.ranges != [] {
      var m := |h.ranges| - 1;
      var less := h.(ranges := h.ranges[..m]);
      MovesOfTotal(less);
      assert MovesOf(h)[..m] == MovesOf(less);
    }
  }

  lemma HandoffCovers(c: Cluster, d: Cluster, plan: seq<Handoff>, i: nat, x: U64)
    requires WellFormed(c) && WellFormed(d) && IsPlan(c, d, plan) && i < |plan|
    ensures IsCovered(MovesOf(plan[i]), x) <==> Moved(c, d, x) == Some((plan[i].from, plan[i].to))
  {
    var from, to := plan[i].from, plan[i].to;
    if IsCovered(MovesOf(plan[i]), x) {
      var j :| 0 <= j < |plan[i].ranges| && Contains(MovesOf(plan[i])[j].range, x);
      assert PlanCarriesAt(plan, i, j, x, from, to);
    }
    if PlanCarries(plan, x, from, to) {
      var k, j :| PlanCarriesAt(plan, k, j, x, from, to);
      assert k == i;
      assert Contains(MovesOf(plan[i])[j].range, x);
    }
  }

  /** The count of a handoff is the number of hashes that change hands between its two nodes. */
  lemma HandoffCounts(c: Cluster, d: Cluster, plan: seq<Handoff>, i: nat)
    requires WellFormed(c) && WellFormed(d) && IsPlan(c, d, plan) && i < |plan|
    ensures RangeTotal(plan[i].ranges) == |PairHashes(c, d, plan[i].from, plan[i].to)|
  {
    var es := MovesOf(plan[i]);
    TotalIsCovered(es);
    MovesOfTotal(plan[i]);
    forall x: U64 ensures x in Covered(es) <==> x in PairHashes(c, d, plan[i].from, plan[i].to) {
      HandoffCovers(c, d, plan, i, x);
    }
    assert Covered(es) == PairHashes(c, d, plan[i].from, plan[i].to);
  }
}
