/** Stretches that move, in boundary order, and joining them where they touch. */
module Moves {
  import opened Words
  import opened Names
  import opened HashRanges

  /** A stretch that moves, and between whom. */
  datatype Move = Move(range: HashRange, from: Name, to: Name)

  ghost predicate Carries(es: seq<Move>, x: U64, from: Name, to: Name) {
    exists k :: CarriesAt(es, k, x, from, to)
  }

  ghost predicate CarriesAt(es: seq<Move>, k: int, x: U64, from: Name, to: Name) {
    0 <= k < |es| && Contains(es[k].range, x) && es[k].from == from && es[k].to == to
  }

  ghost predicate SameMoves(es: seq<Move>, fs: seq<Move>) {
    forall x: U64, from: Name, to: Name :: Carries(es, x, from, to) <==> Carries(fs, x, from, to)
  }

  /** The moves come in boundary order: each begins at or after the end of the one before, and
      only the first may wrap, from beyond `top`, which no other passes. */
  ghost predicate Chain(es: seq<Move>, top: U64) {
    && (forall i, j :: 0 <= i < j < |es| ==> es[i].range.end <= Pred(es[j].range) < es[j].range.end)
    && (forall i :: 0 <= i < |es| ==> es[i].range.end <= top)
    && (es != [] ==> Pred(es[0].range) < es[0].range.end || Pred(es[0].range) >= top)
  }

  lemma ChainDisjoint(es: seq<Move>, top: U64, i: nat, j: nat)
    requires Chain(es, top) && i < j < |es|
    ensures Disjoint(es[i].range, es[j].range)
  {
  }

  /** A move can touch only the next one, or the first from the last. */
  lemma ChainTouches(es: seq<Move>, top: U64, i: nat, j: nat)
    requires Chain(es, top) && i < |es| && j < |es| && i != j && Touches(es[i].range, es[j].range)
    ensures j == i + 1 || (i == |es| - 1 && j == 0)
  {
    if i + 1 < j {
      ChainGap(es, top, i, j);
      assert false;
    }
    if j < i && (j > 0 || i < |es| - 1) {
      ChainBack(es, top, j, i);
      assert false;
    }
  }

  lemma ChainGap(es: seq<Move>, top: U64, i: nat, j: nat)
    requires Chain(es, top) && i + 1 < j < |es|
    ensures es[i].range.end < Pred(es[j].range)
  {
    assert es[i + 1].range.end <= Pred(es[j].range);
  }

  lemma ChainBack(es: seq<Move>, top: U64, j: nat, i: nat)
    requires Chain(es, top) && j < i < |es| && (j > 0 || i < |es| - 1)
    ensures Pred(es[j].range) != es[i].range.end
  {
    if i < |es| - 1 {
      assert es[i].range.end <= Pred(es[|es| - 1].range);
    }
  }

  lemma CarriesAppend(es: seq<Move>, e: Move, x: U64, from: Name, to: Name)
    ensures Carries(es + [e], x, from, to) <==>
      Carries(es, x, from, to) || (Contains(e.range, x) && e.from == from && e.to == to)
  {
    var fs := es + [e];
    if Carries(es, x, from, to) {
      var k :| CarriesAt(es, k, x, from, to);
      assert CarriesAt(fs, k, x, from, to);
    }
    if Contains(e.range, x) && e.from == from && e.to == to {
      assert CarriesAt(fs, |es|, x, from, to);
    }
    if Carries(fs, x, from, to) {
      var k :| CarriesAt(fs, k, x, from, to);
      if k < |es| {
        assert CarriesAt(es, k, x, from, to);
      }
    }
  }

  // ---- Joining neighbours ----

  predicate SamePair(e: Move, f: Move) {
    e.from == f.from && e.to == f.to
  }

  /** `f` carries on where `e` leaves off, between the same nodes. */
  predicate Joinable(e: Move, f: Move) {
    SamePair(e, f) && Touches(e.range, f.range)
  }

  ghost predicate NeighboursApart(es: seq<Move>) {
    forall i :: 0 <= i < |es| - 1 ==> !Joinable(es[i], es[i + 1])
  }

  /** The list with its last move stretched to the end of `e`. */
  function Extended(es: seq<Move>, e: Move): seq<Move>
    requires es != []
  {
    var last := es[|es| - 1];
    es[|es| - 1 := last.(range := HashRange(last.range.start, e.range.end))]
  }

  /** A touching move of the same pair is carried by the longer stretch, and nothing else is. */
  lemma ExtendedCarries(es: seq<Move>, e: Move, top: U64)
    requires es != [] && Chain(es + [e], top)
    requires Joinable(es[|es| - 1], e)
    ensures SameMoves(Extended(es, e), es + [e])
  {
    var m := |es| - 1;
    var fs, gs := Extended(es, e), es + [e];
    forall x: U64, from: Name, to: Name
      ensures Carries(fs, x, from, to) <==> Carries(gs, x, from, to)
    {
      ExtendedContains(es, e, top, x);
      if Carries(fs, x, from, to) {
        var k :| CarriesAt(fs, k, x, from, to);
        assert k != m ==> CarriesAt(gs, k, x, from, to);
        assert k == m ==> CarriesAt(gs, m, x, from, to) || CarriesAt(gs, m + 1, x, from, to);
      }
      if Carries(gs, x, from, to) {
        var k :| CarriesAt(gs, k, x, from, to);
        assert CarriesAt(fs, if k <= m then k else m, x, from, to);
      }
    }
  }

  lemma ExtendedContains(es: seq<Move>, e: Move, top: U64, x: U64)
    requires es != [] && Chain(es + [e], top) && Touches(es[|es| - 1].range, e.range)
    ensures Contains(Extended(es, e)[|es| - 1].range, x) <==>
      Contains(es[|es| - 1].range, x) || Contains(e.range, x)
  {
    var gs := es + [e];
    var m := |es| - 1;
    assert gs[m].range.end <= Pred(gs[m + 1].range) < gs[m + 1].range.end;
  }

  lemma ExtendedChain(es: seq<Move>, e: Move, top: U64)
    requires es != [] && Chain(es + [e], top)
    requires Touches(es[|es| - 1].range, e.range)
    ensures Chain(Extended(es, e), top)
  {
    var gs, fs := es + [e], Extended(es, e);
    var m := |es| - 1;
    assert Pred(fs[m].range) == Pred(gs[m].range);
    assert gs[m].range.end <= Pred(gs[m + 1].range) < gs[m + 1].range.end;
    forall i, j | 0 <= i < j < |fs| ensures fs[i].range.end <= Pred(fs[j].range) < fs[j].range.end {
      assert gs[i].range.end <= Pred(gs[j].range) < gs[j].range.end;
    }
  }

  lemma SameMovesTransitive(es: seq<Move>, fs: seq<Move>, gs: seq<Move>)
    requires SameMoves(es, fs) && SameMoves(fs, gs)
    ensures SameMoves(es, gs)
  {
  }

  lemma SameMovesAppend(es: seq<Move>, fs: seq<Move>, e: Move)
    requires SameMoves(es, fs)
    ensures SameMoves(es + [e], fs + [e])
  {
    forall x: U64, from: Name, to: Name
      ensures Carries(es + [e], x, from, to) <==> Carries(fs + [e], x, from, to)
    {
      CarriesAppend(es, e, x, from, to);
      CarriesAppend(fs, e, x, from, to);
    }
  }

  /** The joined moves so far reach as far as the moves they were joined from. */
  ghost predicate Joining(moved: seq<Move>, i: nat, joined: seq<Move>, top: U64)
    requires i <= |moved|
  {
    && Chain(joined, top) && NeighboursApart(joined) && SameMoves(joined, moved[..i])
    && (joined == [] <==> i == 0)
    && (i > 0 ==> joined[|joined| - 1].range.end == moved[i - 1].range.end)
  }

  lemma ChainNext(moved: seq<Move>, i: nat, joined: seq<Move>, top: U64)
    requires i < |moved| && Chain(moved, top) && Joining(moved, i, joined, top)
    ensures Chain(joined + [moved[i]], top)
  {
  }

  lemma JoiningExtends(moved: seq<Move>, i: nat, joined: seq<Move>, top: U64)
    requires i < |moved| && Chain(moved, top) && Joining(moved, i, joined, top)
    requires joined != [] && Joinable(joined[|joined| - 1], moved[i])
    ensures Joining(moved, i + 1, Extended(joined, moved[i]), top)
  {
    ChainNext(moved, i, joined, top);
    ExtendedChain(joined, moved[i], top);
    ExtendedCarries(joined, moved[i], top);
    SameMovesAppend(joined, moved[..i], moved[i]);
    assert moved[..i + 1] == moved[..i] + [moved[i]];
    ExtendedApart(joined, moved[i]);
  }

  lemma ExtendedApart(es: seq<Move>, e: Move)
    requires es != [] && NeighboursApart(es)
    ensures NeighboursApart(Extended(es, e))
  {
  }

  lemma JoiningPushes(moved: seq<Move>, i: nat, joined: seq<Move>, top: U64)
    requires i < |moved| && Chain(moved, top) && Joining(moved, i, joined, top)
    requires joined == [] || !Joinable(joined[|joined| - 1], moved[i])
    ensures Joining(moved, i + 1, joined + [moved[i]], top)
  {
    ChainNext(moved, i, joined, top);
    SameMovesAppend(joined, moved[..i], moved[i]);
    assert moved[..i + 1] == moved[..i] + [moved[i]];
    var fs := joined + [moved[i]];
    forall k | 0 <= k < |fs| - 1 ensures !Joinable(fs[k], fs[k + 1]) {
    }
  }

  /** Carries the same hashes between the same pairs in moves of which no two neighbours can be
      joined. */
  method JoinNeighbours(moved: seq<Move>, ghost top: U64) returns (joined: seq<Move>)
    requires Chain(moved, top)
    ensures Chain(joined, top) && NeighboursApart(joined) && SameMoves(joined, moved)
  {
    joined := [];
    for i := 0 to |moved|
      invariant Joining(moved, i, joined, top)
    {
      var e := moved[i];
      if joined != [] && Joinable(joined[|joined| - 1], e) {
        JoiningExtends(moved, i, joined, top);
        var last := joined[|joined| - 1];
        joined := joined[|joined| - 1 := last.(range := HashRange(last.range.start, e.range.end))];
      } else {
        JoiningPushes(moved, i, joined, top);
        joined := joined + [e];
      }
    }
    assert moved[..|moved|] == moved;
  }

  // ---- Joining round the wrap ----

  /** No two moves between the same nodes touch, even across the wrap. */
  ghost predicate Apart(es: seq<Move>) {
    forall i, j :: 0 <= i < |es| && 0 <= j < |es| && i != j ==>
      !Joinable(es[i], es[j])
  }

  ghost predicate PairwiseDisjoint(es: seq<Move>) {
    forall i, j :: 0 <= i < j < |es| ==> Disjoint(es[i].range, es[j].range)
  }

  lemma ChainApart(es: seq<Move>, top: U64)
    requires Chain(es, top) && NeighboursApart(es)
    requires |es| > 1 ==> !Joinable(es[|es| - 1], es[0])
    ensures Apart(es) && PairwiseDisjoint(es)
  {
    forall i, j | 0 <= i < |es| && 0 <= j < |es| && i != j
      ensures !Joinable(es[i], es[j])
    {
      if Touches(es[i].range, es[j].range) {
        ChainTouches(es, top, i, j);
      }
    }
    forall i, j | 0 <= i < j < |es| ensures Disjoint(es[i].range, es[j].range) {
      ChainDisjoint(es, top, i, j);
    }
  }

  /** The list with its last move folded into its first. */
  function Folded(es: seq<Move>): seq<Move>
    requires |es| > 1
  {
    [es[0].(range := HashRange(es[|es| - 1].range.start, es[0].range.end))] + es[1..|es| - 1]
  }

  lemma FoldedContains(es: seq<Move>, top: U64, x: U64)
    requires |es| > 1 && Chain(es, top) && Touches(es[|es| - 1].range, es[0].range)
    ensures Contains(Folded(es)[0].range, x) <==> Contains(es[0].range, x) || Contains(es[|es| - 1].range, x)
  {
  }

  lemma FoldedCarries(es: seq<Move>, top: U64)
    requires |es| > 1 && Chain(es, top)
    requires Joinable(es[|es| - 1], es[0])
    ensures SameMoves(Folded(es), es)
  {
    var m := |es| - 1;
    var fs := Folded(es);
    assert forall k :: 0 < k < m ==> fs[k] == es[k];
    forall x: U64, from: Name, to: Name ensures Carries(fs, x, from, to) <==> Carries(es, x, from, to) {
      FoldedContains(es, top, x);
      if Carries(fs, x, from, to) {
        var k :| CarriesAt(fs, k, x, from, to);
        assert k > 0 ==> CarriesAt(es, k, x, from, to);
        assert k == 0 ==> CarriesAt(es, 0, x, from, to) || CarriesAt(es, m, x, from, to);
      }
      if Carries(es, x, from, to) {
        var k :| CarriesAt(es, k, x, from, to);
        assert CarriesAt(fs, if k == m then 0 else k, x, from, to);
      }
    }
  }

  lemma FoldedChain(es: seq<Move>, top: U64)
    requires |es| > 1 && Chain(es, top)
    ensures Chain(Folded(es), Pred(es[|es| - 1].range))
  {
  }

  lemma FoldedApart(es: seq<Move>)
    requires |es| > 1 && NeighboursApart(es) && SamePair(es[|es| - 1], es[0])
    ensures NeighboursApart(Folded(es))
    ensures var fs := Folded(es); |fs| > 1 ==> !Joinable(fs[|fs| - 1], fs[0])
  {
  }

  /** After this no two moves overlap and no two can be joined, the last and the first included. */
  method JoinWrap(joined: seq<Move>, ghost top: U64) returns (es: seq<Move>)
    requires Chain(joined, top) && NeighboursApart(joined)
    ensures Apart(es) && PairwiseDisjoint(es) && SameMoves(es, joined)
  {
    es := joined;
    if |joined| > 1 {
      var last, first := joined[|joined| - 1], joined[0];
      if Joinable(last, first) {
        FoldedChain(joined, top);
        FoldedApart(joined);
        FoldedCarries(joined, top);
        ChainApart(Folded(joined), Pred(last.range));
        es := es[0 := Move(HashRange(last.range.start, first.range.end), first.from, first.to)];
        es := es[..|es| - 1];
        assert es == Folded(joined);
        return;
      }
    }
    ChainApart(joined, top);
  }
}
