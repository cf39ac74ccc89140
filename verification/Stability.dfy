/** What a membership change may and may not disturb. */
module Stability {
  import opened Words
  import opened Names
  import opened Clusters
  import opened Placement
  import opened Replicas
  import Operations

  function Without(c: Cluster, v: Name): Cluster {
    c.(nodes := c.nodes - {v})
  }

  /** The membership with its Down nodes removed. */
  ghost function OnlyLive(c: Cluster): Cluster {
    c.(nodes := map n | n in c.nodes && c.nodes[n].state.Live? :: c.nodes[n])
  }

  /** `d` serves with the nodes `c` serves with, less `v`. What the two say about nodes that
      are not serving is open, so this covers leaving, going down and never having been there. */
  ghost predicate Loses(c: Cluster, d: Cluster, v: Name) {
    c.h == d.h && c.ppw == d.ppw && LiveNames(d) == LiveNames(c) - {v} &&
    forall n :: n in LiveNames(d) ==>
      n in LiveNames(c) && c.nodes[n].weight == d.nodes[n].weight && c.nodes[n].zone == d.nodes[n].zone
  }

  /** Leaving loses a node, and so does going down. */
  lemma RemovalLoses(c: Cluster, v: Name)
    requires WellFormed(c)
    ensures WellFormed(Without(c, v)) && Loses(c, Without(c, v), v)
  {
  }

  lemma DownLoses(c: Cluster, v: Name)
    requires WellFormed(c)
    ensures var d := c.(nodes := Operations.SetState(c.nodes, v, Down));
      WellFormed(d) && Loses(c, d, v)
  {
  }

  /** Joining is the same change backwards. */
  lemma JoinGains(c: Cluster, j: Operations.Joining)
    requires WellFormed(c) && Operations.CheckJoining(c.nodes, j).Ok?
    ensures var d := c.(nodes := Operations.Join(c.nodes, j));
      WellFormed(d) && Loses(d, c, j.name)
  {
  }

  lemma BeforeAgrees(c: Cluster, d: Cluster, v: Name, x: U64, n: Name, m: Name)
    requires Loses(c, d, v) && n in LiveNames(d) && m in LiveNames(d)
    requires Before(c, x, n, m)
    ensures Before(d, x, n, m)
  {
    var p :| BeforeAt(c, x, n, m, p);
    assert BeforeAt(d, x, n, m, p);
  }

  lemma InOrderAgrees(c: Cluster, d: Cluster, v: Name, x: U64, o: seq<Name>)
    requires Loses(c, d, v) && Elements(o) <= LiveNames(d) && InOrder(c, x, o)
    ensures InOrder(d, x, o)
  {
    forall i, j | 0 <= i < j < |o| ensures Before(d, x, o[i], o[j]) {
      BeforeAgrees(c, d, v, x, o[i], o[j]);
    }
  }

  lemma InOrderDrops(c: Cluster, x: U64, o: seq<Name>, i: nat)
    requires i < |o| && InOrder(c, x, o)
    ensures InOrder(c, x, DropAt(o, i))
  {
  }

  /** Losing a node takes it out of the order and moves nobody else. */
  lemma OrderLoses(c: Cluster, d: Cluster, v: Name, x: U64, i: nat)
    requires WellFormed(c) && WellFormed(d) && Loses(c, d, v)
    requires i < |Order(c, x)| && Order(c, x)[i] == v
    ensures Order(d, x) == DropAt(Order(c, x), i)
  {
    var o := Order(c, x);
    var t := DropAt(o, i);
    DropAtElements(o, i);
    InOrderDrops(c, x, o, i);
    InOrderAgrees(c, d, v, x, t);
    WalkUnique(d, x, Order(d, x), t);
  }

  lemma OrderKeeps(c: Cluster, d: Cluster, v: Name, x: U64)
    requires WellFormed(c) && WellFormed(d) && Loses(c, d, v) && v !in LiveNames(c)
    ensures Order(d, x) == Order(c, x)
  {
    var o := Order(c, x);
    InOrderAgrees(c, d, v, x, o);
    WalkUnique(d, x, Order(d, x), o);
  }

  // ---- How the preference changes ----

  lemma FirstOfDomain(nodes: map<Name, Node>, b: seq<Name>, d: Domain) returns (i: nat)
    requires d in Domains(nodes, b)
    ensures i < |b| && DomainOf(nodes, b[i]) == d && d !in Domains(nodes, b[..i])
  {
    i := 0;
    while DomainOf(nodes, b[i]) != d
      invariant i < |b| && d !in Domains(nodes, b[..i])
      decreases |b| - i
    {
      i := i + 1;
    }
  }

  /** Taking `v` out of the order takes it out of the preference. At most one other node moves:
      the next of v's domain, which takes v's place among the firsts, further up the list. */
  lemma SpreadDrops(nodes: map<Name, Node>, a: seq<Name>, v: Name, b: seq<Name>)
    returns (p: seq<Name>, q: seq<Name>, m: seq<Name>, w: seq<Name>, r: seq<Name>)
    ensures |w| <= 1
    ensures Spread(nodes, a + [v] + b) == p + [v] + q + m + w + r
    ensures Spread(nodes, a + b) == p + q + w + m + r
  {
    var d := DomainOf(nodes, v);
    var u := Domains(nodes, a);
    if d !in u && d in Domains(nodes, b) {
      var i := FirstOfDomain(nodes, b, d);
      assert b == b[..i] + [b[i]] + b[i + 1..];
      p, q, m, w, r := SpreadPromotes(nodes, a, v, b[..i], b[i], b[i + 1..]);
    } else {
      p, q := SpreadOnlyDrops(nodes, a, v, b);
      m, w, r := [], [], [];
    }
  }

  lemma SpreadOnlyDrops(nodes: map<Name, Node>, a: seq<Name>, v: Name, b: seq<Name>)
    returns (p: seq<Name>, q: seq<Name>)
    requires DomainOf(nodes, v) in Domains(nodes, a) || DomainOf(nodes, v) !in Domains(nodes, b)
    ensures Spread(nodes, a + [v] + b) == p + [v] + q
    ensures Spread(nodes, a + b) == p + q
  {
    var d := DomainOf(nodes, v);
    var u := Domains(nodes, a);
    var fa, ca := Firsts(nodes, a, {}), Crowded(nodes, a, {});
    SpreadThree(nodes, a, v, b);
    SpreadTwo(nodes, a, b);
    if d in u {
      assert u + {d} == u;
      p, q := fa + Firsts(nodes, b, u) + ca, Crowded(nodes, b, u);
      RegroupCrowded(fa, Firsts(nodes, b, u), ca, v, q);
    } else {
      SpreadIgnores(nodes, b, u, d);
      p, q := fa, Firsts(nodes, b, u) + (ca + Crowded(nodes, b, u));
      RegroupFirst(fa, v, Firsts(nodes, b, u), ca, Crowded(nodes, b, u));
    }
  }

  lemma RegroupCrowded(fa: seq<Name>, fb: seq<Name>, ca: seq<Name>, v: Name, cb: seq<Name>)
    ensures fa + [] + fb + (ca + [v] + cb) == fa + fb + ca + [v] + cb
    ensures fa + fb + (ca + cb) == fa + fb + ca + cb
  {
  }

  lemma RegroupFirst(fa: seq<Name>, v: Name, fb: seq<Name>, ca: seq<Name>, cb: seq<Name>)
    ensures fa + [v] + fb + (ca + [] + cb) == fa + [v] + (fb + (ca + cb))
    ensures fa + fb + (ca + cb) == fa + (fb + (ca + cb))
  {
  }

  lemma RegroupPromoted(fa: seq<Name>, v: Name, f1: seq<Name>, w: seq<Name>, f2: seq<Name>,
                        ca: seq<Name>, c1: seq<Name>, r: seq<Name>)
    ensures fa + [v] + (f1 + f2) + (ca + [] + (c1 + w + r)) == fa + [v] + f1 + (f2 + (ca + c1)) + w + r
    ensures fa + (f1 + w + f2) + (ca + (c1 + r)) == fa + f1 + w + (f2 + (ca + c1)) + r
  {
  }

  lemma SpreadPromotes(nodes: map<Name, Node>, a: seq<Name>, v: Name, b1: seq<Name>, n: Name, b2: seq<Name>)
    returns (p: seq<Name>, q: seq<Name>, m: seq<Name>, w: seq<Name>, r: seq<Name>)
    requires DomainOf(nodes, n) == DomainOf(nodes, v)
    requires DomainOf(nodes, v) !in Domains(nodes, a) && DomainOf(nodes, v) !in Domains(nodes, b1)
    ensures |w| == 1
    ensures Spread(nodes, a + [v] + (b1 + [n] + b2)) == p + [v] + q + m + w + r
    ensures Spread(nodes, a + (b1 + [n] + b2)) == p + q + w + m + r
  {
    var d := DomainOf(nodes, v);
    var u := Domains(nodes, a);
    var b := b1 + [n] + b2;
    var u' := u + Domains(nodes, b1) + {d};
    var ca, c1, f2 := Crowded(nodes, a, {}), Crowded(nodes, b1, u), Firsts(nodes, b2, u');
    p, q, w, r := Firsts(nodes, a, {}), Firsts(nodes, b1, u), [n], Crowded(nodes, b2, u');
    m := f2 + (ca + c1);
    SuffixPromotes(nodes, b1, n, b2, u);
    SpreadThree(nodes, a, v, b);
    SpreadTwo(nodes, a, b);
    RegroupPromoted(p, v, q, w, f2, ca, c1, r);
  }

  lemma SuffixPromotes(nodes: map<Name, Node>, b1: seq<Name>, n: Name, b2: seq<Name>, u: set<Domain>)
    requires DomainOf(nodes, n) !in u && DomainOf(nodes, n) !in Domains(nodes, b1)
    ensures
      var d := DomainOf(nodes, n);
      var b := b1 + [n] + b2;
      var u' := u + Domains(nodes, b1) + {d};
      && Firsts(nodes, b, u) == Firsts(nodes, b1, u) + [n] + Firsts(nodes, b2, u')
      && Crowded(nodes, b, u) == Crowded(nodes, b1, u) + Crowded(nodes, b2, u')
      && Firsts(nodes, b, u + {d}) == Firsts(nodes, b1, u) + Firsts(nodes, b2, u')
      && Crowded(nodes, b, u + {d}) == Crowded(nodes, b1, u) + [n] + Crowded(nodes, b2, u')
  {
    var d := DomainOf(nodes, n);
    SpreadIgnores(nodes, b1, u, d);
    SuffixThree(nodes, b1, n, b2, u);
    SuffixThree(nodes, b1, n, b2, u + {d});
    assert u + {d} + Domains(nodes, b1) + {d} == u + Domains(nodes, b1) + {d};
  }

  lemma SpreadTwo(nodes: map<Name, Node>, a: seq<Name>, b: seq<Name>)
    ensures var u := Domains(nodes, a);
      Spread(nodes, a + b) ==
        Firsts(nodes, a, {}) + Firsts(nodes, b, u) + (Crowded(nodes, a, {}) + Crowded(nodes, b, u))
  {
    SpreadConcat(nodes, a, b, {});
    assert {} + Domains(nodes, a) == Domains(nodes, a);
  }

  lemma SpreadThree(nodes: map<Name, Node>, a: seq<Name>, v: Name, b: seq<Name>)
    ensures var u, d := Domains(nodes, a), DomainOf(nodes, v);
      Spread(nodes, a + [v] + b) ==
        Firsts(nodes, a, {}) + (if d in u then [] else [v]) + Firsts(nodes, b, u + {d}) +
        (Crowded(nodes, a, {}) + (if d in u then [v] else []) + Crowded(nodes, b, u + {d}))
  {
    SuffixThree(nodes, a, v, b, {});
    assert {} + Domains(nodes, a) == Domains(nodes, a);
  }

  lemma SuffixThree(nodes: map<Name, Node>, a: seq<Name>, v: Name, b: seq<Name>, used: set<Domain>)
    ensures var u, d := used + Domains(nodes, a), DomainOf(nodes, v);
      && Firsts(nodes, a + [v] + b, used) ==
           Firsts(nodes, a, used) + (if d in u then [] else [v]) + Firsts(nodes, b, u + {d})
      && Crowded(nodes, a + [v] + b, used) ==
           Crowded(nodes, a, used) + (if d in u then [v] else []) + Crowded(nodes, b, u + {d})
  {
    var u, d := used + Domains(nodes, a), DomainOf(nodes, v);
    SpreadConcat(nodes, a + [v], b, used);
    SpreadConcat(nodes, a, [v], used);
    SpreadOne(nodes, v, u);
    assert used + Domains(nodes, a + [v]) == u + {d};
  }

  // ---- What that does to the first k ----

  ghost predicate StillHeld(before: seq<Name>, after: seq<Name>, v: Name) {
    forall n :: n in before && n != v ==> n in after
  }

  ghost predicate NewAtMost(before: seq<Name>, after: seq<Name>, e: Name) {
    forall n :: n in after ==> n in before || n == e
  }

  lemma CutStable(p: seq<Name>, v: Name, q: seq<Name>, m: seq<Name>, w: seq<Name>, r: seq<Name>, k: nat)
    returns (e: Name)
    requires |w| <= 1
    ensures
      var l, l' := p + [v] + q + m + w + r, p + q + w + m + r;
      var s, s' := Cut(l, k), Cut(l', k);
      && StillHeld(s, s', v)
      && NewAtMost(s, s', e)
      && (v !in s ==> s' == s)
  {
    var l, l' := p + [v] + q + m + w + r, p + q + w + m + r;
    var s, s' := l[..Min(k, |l|)], l'[..Min(k, |l'|)];
    var moved := |p| + |q| < k <= |p| + 1 + |q| + |m|;
    e := if moved && |w| == 1 then w[0] else if 0 < k <= |l'| then l'[k - 1] else [];
    if |p| < k {
      assert s[|p|] == v;
    }
    forall n | n in s && n != v ensures n in s' {
      var i :| 0 <= i < |s| && s[i] == n;
      CutKeeps(p, v, q, m, w, r, k, i);
    }
    forall n | n in s' ensures n in s || n == e {
      var i :| 0 <= i < |s'| && s'[i] == n;
      CutAdds(p, v, q, m, w, r, k, i, e);
    }
  }

  lemma CutKeeps(p: seq<Name>, v: Name, q: seq<Name>, m: seq<Name>, w: seq<Name>, r: seq<Name>, k: nat, i: nat)
    requires |w| <= 1
    requires i < k && i < |p + [v] + q + m + w + r| && (p + [v] + q + m + w + r)[i] != v
    ensures var l, l' := p + [v] + q + m + w + r, p + q + w + m + r;
            l[i] in l'[..Min(k, |l'|)]
  {
    var l, l' := p + [v] + q + m + w + r, p + q + w + m + r;
    var a, b, c, d := |p|, |p| + 1 + |q|, |p| + 1 + |q| + |m|, |p| + 1 + |q| + |m| + |w|;
    var j :=
      if i < a then i else if i < b then i - 1 else if i < c then i - 1 + |w| else if i < d then |p| + |q| else i - 1;
    assert l'[..Min(k, |l'|)][j] == l[i];
  }

  lemma CutAdds(p: seq<Name>, v: Name, q: seq<Name>, m: seq<Name>, w: seq<Name>, r: seq<Name>, k: nat, i: nat, e: Name)
    requires |w| <= 1
    requires i < k && i < |p + q + w + m + r|
    requires
      var l' := p + q + w + m + r;
      var moved := |p| + |q| < k <= |p| + 1 + |q| + |m|;
      e == if moved && |w| == 1 then w[0] else if 0 < k <= |l'| then l'[k - 1] else []
    ensures var l, l' := p + [v] + q + m + w + r, p + q + w + m + r;
            l'[i] in l[..Min(k, |l|)] || l'[i] == e
  {
    var l, l' := p + [v] + q + m + w + r, p + q + w + m + r;
    var a, b, c, d := |p|, |p| + |q|, |p| + |q| + |w|, |p| + |q| + |w| + |m|;
    var j :=
      if i < a then i else if i < b then i + 1
      else if i < c then |p| + 1 + |q| + |m| else if i < d then i + 1 - |w| else i + 1;
    if j < k {
      assert l[..Min(k, |l|)][j] == l'[i];
    }
  }

  // ---- The results ----

  /** When `v` stops serving, every other node that held a copy still holds one, at most one
      node joins the holders, and if `v` held no copy nothing changes at all. */
  lemma ReplicasStable(c: Cluster, d: Cluster, v: Name, x: U64, copies: nat) returns (e: Name)
    requires WellFormed(c) && WellFormed(d) && Loses(c, d, v)
    ensures StillHeld(Owners(c, x, copies), Owners(d, x, copies), v)
    ensures NewAtMost(Owners(c, x, copies), Owners(d, x, copies), e)
    ensures v !in Owners(c, x, copies) ==> Owners(d, x, copies) == Owners(c, x, copies)
    ensures v !in Owners(d, x, copies)
  {
    OwnersServe(d, x, copies, v);
    SpreadSame(c, d, v, x);
    var o := Order(c, x);
    if v in LiveNames(c) {
      var i :| 0 <= i < |o| && o[i] == v;
      OrderLoses(c, d, v, x, i);
      e := SpreadStable(c.nodes, o, i, copies);
    } else {
      OrderKeeps(c, d, v, x);
      e := v;
    }
  }

  lemma SpreadStable(nodes: map<Name, Node>, o: seq<Name>, i: nat, k: nat) returns (e: Name)
    requires i < |o|
    ensures
      var s, s' := Cut(Spread(nodes, o), k), Cut(Spread(nodes, DropAt(o, i)), k);
      StillHeld(s, s', o[i]) && NewAtMost(s, s', e) && (o[i] !in s ==> s' == s)
  {
    var a, v, b := o[..i], o[i], o[i + 1..];
    assert o == a + [v] + b;
    var p, q, m, w, r := SpreadDrops(nodes, a, v, b);
    e := CutStable(p, v, q, m, w, r, k);
  }

  lemma OwnersServe(c: Cluster, x: U64, copies: nat, v: Name)
    requires WellFormed(c) && v !in LiveNames(c)
    ensures v !in Owners(c, x, copies)
  {
    OwnersMeanWhatTheySay(c, x, copies);
  }

  lemma SpreadSame(c: Cluster, d: Cluster, v: Name, x: U64)
    requires WellFormed(d) && Loses(c, d, v)
    ensures Spread(c.nodes, Order(d, x)) == Spread(d.nodes, Order(d, x))
  {
    var t := Order(d, x);
    forall n | n in t ensures DomainOf(c.nodes, n) == DomainOf(d.nodes, n) {
      assert n in Elements(t);
    }
    PickAgrees(c.nodes, d.nodes, t, {}, true);
    PickAgrees(c.nodes, d.nodes, t, {}, false);
  }

  /** Stepping over Down nodes is the same as not having them: the reading of the documentation,
      under which a Down node holds no points, answers every lookup alike. */
  lemma DownIsAbsent(c: Cluster, x: U64, copies: nat)
    requires WellFormed(c)
    ensures WellFormed(OnlyLive(c))
    ensures Owner(OnlyLive(c), x) == Owner(c, x)
    ensures Owners(OnlyLive(c), x, copies) == Owners(c, x, copies)
    ensures LiveDomains(OnlyLive(c)) == LiveDomains(c)
  {
    OnlyLiveLoses(c);
    OrderKeeps(c, OnlyLive(c), [], x);
    SpreadSame(c, OnlyLive(c), [], x);
  }

  lemma OnlyLiveLoses(c: Cluster)
    requires WellFormed(c)
    ensures WellFormed(OnlyLive(c)) && Loses(c, OnlyLive(c), []) && [] !in LiveNames(c)
    ensures LiveDomains(OnlyLive(c)) == LiveDomains(c)
  {
    var d := OnlyLive(c);
    assert LiveNames(d) == LiveNames(c);
    assert forall n :: n in LiveNames(c) ==> DomainOf(c.nodes, n) == DomainOf(d.nodes, n);
  }

  /** Losing `v` moves exactly the hashes `v` held. */
  lemma LossMovesOnlyItsOwn(c: Cluster, d: Cluster, v: Name, x: U64)
    requires WellFormed(c) && WellFormed(d) && Loses(c, d, v)
    ensures Owner(c, x) != Owner(d, x) <==> Owner(c, x) == Some(v)
  {
    var o := Order(c, x);
    if v in LiveNames(c) {
      var i :| 0 <= i < |o| && o[i] == v;
      OrderLoses(c, d, v, x, i);
    } else {
      OrderKeeps(c, d, v, x);
      assert v !in Elements(o);
    }
  }

  /** A join moves a hash only to the newcomer: `c` is what the cluster was, `d` has `v` as well. */
  lemma JoinMovesOnlyToNewcomer(c: Cluster, d: Cluster, v: Name, x: U64)
    requires WellFormed(c) && WellFormed(d) && Loses(d, c, v)
    ensures Owner(d, x) == Owner(c, x) || Owner(d, x) == Some(v)
  {
    LossMovesOnlyItsOwn(d, c, v, x);
  }
}
