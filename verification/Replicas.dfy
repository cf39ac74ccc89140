/** Copies of a hash, kept in different failure domains while there are any left. */
module Replicas {
  import opened Words
  import opened Names
  import opened Clusters
  import opened Placement

  /** The zone of a node, or the node alone where it has none. */
  datatype Domain = Zone(zone: Name) | Alone(name: Name)

  function DomainOf(nodes: map<Name, Node>, n: Name): Domain {
    if n in nodes && nodes[n].zone.Some? then Zone(nodes[n].zone.value) else Alone(n)
  }

  ghost function Domains(nodes: map<Name, Node>, o: seq<Name>): set<Domain> {
    set n | n in o :: DomainOf(nodes, n)
  }

  ghost function LiveDomains(c: Cluster): set<Domain> {
    set n | n in LiveNames(c) :: DomainOf(c.nodes, n)
  }

  /** The nodes of `o` that are the first of their domain, no domain of `used` counting, or the
      ones that are not. */
  ghost function Pick(nodes: map<Name, Node>, o: seq<Name>, used: set<Domain>, first: bool): seq<Name> {
    if o == [] then []
    else
      var d := DomainOf(nodes, o[0]);
      (if (d in used) != first then [o[0]] else []) + Pick(nodes, o[1..], used + {d}, first)
  }

  ghost function Firsts(nodes: map<Name, Node>, o: seq<Name>, used: set<Domain>): seq<Name> {
    Pick(nodes, o, used, true)
  }

  ghost function Crowded(nodes: map<Name, Node>, o: seq<Name>, used: set<Domain>): seq<Name> {
    Pick(nodes, o, used, false)
  }

  /** Preference for copies: the first node of each domain in ring order, then the crowded
      nodes in ring order. */
  ghost function Spread(nodes: map<Name, Node>, o: seq<Name>): seq<Name> {
    Firsts(nodes, o, {}) + Crowded(nodes, o, {})
  }

  /** The nodes holding `copies` copies of `x`. */
  ghost function Owners(c: Cluster, x: U64, copies: nat): seq<Name>
    requires WellFormed(c)
  {
    Cut(Spread(c.nodes, Order(c, x)), copies)
  }

  ghost function Cut(s: seq<Name>, k: nat): seq<Name> {
    s[..Min(k, |s|)]
  }

  // ---- The parts of the preference ----

  lemma DomainsConcat(nodes: map<Name, Node>, a: seq<Name>, b: seq<Name>)
    ensures Domains(nodes, a + b) == Domains(nodes, a) + Domains(nodes, b)
  {
  }

  lemma DomainsCons(nodes: map<Name, Node>, o: seq<Name>)
    requires o != []
    ensures Domains(nodes, o) == {DomainOf(nodes, o[0])} + Domains(nodes, o[1..])
  {
  }

  lemma {:induction false} PickConcat(nodes: map<Name, Node>, a: seq<Name>, b: seq<Name>, used: set<Domain>,
                                      first: bool)
    ensures Pick(nodes, a + b, used, first) ==
            Pick(nodes, a, used, first) + Pick(nodes, b, used + Domains(nodes, a), first)
  {
    if a == [] {
      assert a + b == b;
      assert used + Domains(nodes, a) == used;
    } else {
      var d := DomainOf(nodes, a[0]);
      var head := if (d in used) != first then [a[0]] else [];
      var after := used + Domains(nodes, a);
      PickConcat(nodes, a[1..], b, used + {d}, first);
      DomainsCons(nodes, a);
      assert used + {d} + Domains(nodes, a[1..]) == after;
      assert (a + b)[1..] == a[1..] + b;
      Regroup(head, Pick(nodes, a[1..], used + {d}, first), Pick(nodes, b, after, first));
    }
  }

  lemma Regroup(a: seq<Name>, b: seq<Name>, c: seq<Name>)
    ensures a + (b + c) == a + b + c
  {
  }

  lemma SpreadConcat(nodes: map<Name, Node>, a: seq<Name>, b: seq<Name>, used: set<Domain>)
    ensures Firsts(nodes, a + b, used) == Firsts(nodes, a, used) + Firsts(nodes, b, used + Domains(nodes, a))
    ensures Crowded(nodes, a + b, used) == Crowded(nodes, a, used) + Crowded(nodes, b, used + Domains(nodes, a))
  {
    PickConcat(nodes, a, b, used, true);
    PickConcat(nodes, a, b, used, false);
  }

  lemma SpreadOne(nodes: map<Name, Node>, n: Name, used: set<Domain>)
    ensures Firsts(nodes, [n], used) == if DomainOf(nodes, n) in used then [] else [n]
    ensures Crowded(nodes, [n], used) == if DomainOf(nodes, n) in used then [n] else []
  {
    var u := used + {DomainOf(nodes, n)};
    assert Pick(nodes, [n][1..], u, true) == [] && Pick(nodes, [n][1..], u, false) == [];
  }

  lemma {:induction false} SpreadPermutes(nodes: map<Name, Node>, o: seq<Name>, used: set<Domain>)
    ensures multiset(Firsts(nodes, o, used) + Crowded(nodes, o, used)) == multiset(o)
  {
    if o != [] {
      var u := used + {DomainOf(nodes, o[0])};
      SpreadPermutes(nodes, o[1..], u);
      assert o == [o[0]] + o[1..];
      var f, r := Firsts(nodes, o[1..], u), Crowded(nodes, o[1..], u);
      if DomainOf(nodes, o[0]) in used {
        assert Firsts(nodes, o, used) == f && Crowded(nodes, o, used) == [o[0]] + r;
      }
    }
  }

  /** The firsts stand for the domains of `o` not in `used`, one each. */
  lemma FirstsCover(nodes: map<Name, Node>, o: seq<Name>, used: set<Domain>)
    ensures Domains(nodes, Firsts(nodes, o, used)) == Domains(nodes, o) - used
    ensures |Domains(nodes, o) - used| == |Firsts(nodes, o, used)|
  {
    FirstsDomains(nodes, o, used);
    FirstsCount(nodes, o, used);
  }

  lemma {:induction false} FirstsDomains(nodes: map<Name, Node>, o: seq<Name>, used: set<Domain>)
    ensures Domains(nodes, Pick(nodes, o, used, true)) == Domains(nodes, o) - used
  {
    if o != [] {
      var d := DomainOf(nodes, o[0]);
      var rest := Pick(nodes, o[1..], used + {d}, true);
      FirstsDomains(nodes, o[1..], used + {d});
      if d in used {
        assert Pick(nodes, o, used, true) == rest;
      } else {
        var f := [o[0]] + rest;
        DomainsCons(nodes, f);
      }
    }
  }

  lemma {:induction false} FirstsCount(nodes: map<Name, Node>, o: seq<Name>, used: set<Domain>)
    ensures |Domains(nodes, o) - used| == |Pick(nodes, o, used, true)|
  {
    if o != [] {
      var d := DomainOf(nodes, o[0]);
      var left := Domains(nodes, o[1..]) - (used + {d});
      FirstsCount(nodes, o[1..], used + {d});
      DomainsCons(nodes, o);
      assert Domains(nodes, o) - used == if d in used then left else left + {d};
    }
  }

  /** A domain that does not occur in `o` makes no difference to it. */
  lemma {:induction false} PickIgnores(nodes: map<Name, Node>, o: seq<Name>, used: set<Domain>, d: Domain, first: bool)
    requires d !in Domains(nodes, o)
    ensures Pick(nodes, o, used + {d}, first) == Pick(nodes, o, used, first)
  {
    if o != [] {
      var e := DomainOf(nodes, o[0]);
      PickIgnores(nodes, o[1..], used + {e}, d, first);
      assert used + {d} + {e} == used + {e} + {d};
    }
  }

  lemma SpreadIgnores(nodes: map<Name, Node>, o: seq<Name>, used: set<Domain>, d: Domain)
    requires d !in Domains(nodes, o)
    ensures Firsts(nodes, o, used + {d}) == Firsts(nodes, o, used)
    ensures Crowded(nodes, o, used + {d}) == Crowded(nodes, o, used)
  {
    PickIgnores(nodes, o, used, d, true);
    PickIgnores(nodes, o, used, d, false);
  }

  lemma {:induction false} PickAgrees(m: map<Name, Node>, m': map<Name, Node>, o: seq<Name>, used: set<Domain>,
                                      first: bool)
    requires forall n :: n in o ==> DomainOf(m, n) == DomainOf(m', n)
    ensures Pick(m, o, used, first) == Pick(m', o, used, first)
  {
    if o != [] {
      PickAgrees(m, m', o[1..], used + {DomainOf(m, o[0])}, first);
    }
  }

  lemma DistinctFromMultiset(s: seq<Name>, t: seq<Name>)
    requires multiset(s) == multiset(t) && Distinct(s)
    ensures Distinct(t) && Elements(t) == Elements(s) && |t| == |s|
  {
    assert forall n :: n in s <==> n in multiset(s);
    forall i, j | 0 <= i < j < |t| ensures t[i] != t[j] {
      if t[i] == t[j] {
        CountTwice(t, i, j);
        CountOnce(s, t[i]);
        assert false;
      }
    }
  }

  /** As good a placement as there is: distinct serving nodes, as many as were asked for or as there
      are, in as many different failure domains as that number allows. */
  ghost predicate WellPlaced(c: Cluster, os: seq<Name>, copies: nat) {
    && Distinct(os)
    && Elements(os) <= LiveNames(c)
    && |os| == Min(copies, |LiveNames(c)|)
    && |Domains(c.nodes, os)| == Min(|os|, |LiveDomains(c)|)
  }

  /** In whatever order the serving nodes are met, spreading them places copies well. */
  lemma SpreadPlacesWell(c: Cluster, o: seq<Name>, copies: nat)
    requires ListsLive(c, o)
    ensures WellPlaced(c, Cut(Spread(c.nodes, o), copies), copies)
  {
    var s := Spread(c.nodes, o);
    var os := Cut(s, copies);
    SpreadPermutes(c.nodes, o, {});
    DistinctFromMultiset(o, s);
    DistinctCount(o);
    assert forall n :: n in os ==> n in s && n in Elements(s);
    ListedDomains(c, o);
    SpreadSpan(c.nodes, o, |os|);
  }

  lemma ListedDomains(c: Cluster, o: seq<Name>)
    requires ListsLive(c, o)
    ensures Domains(c.nodes, o) == LiveDomains(c)
  {
    assert forall n :: n in o <==> n in Elements(o);
  }

  /** The owners of a hash are well placed, and the owner is the first of them. */
  lemma OwnersMeanWhatTheySay(c: Cluster, x: U64, copies: nat)
    requires WellFormed(c)
    ensures var os := Owners(c, x, copies);
      && WellPlaced(c, os, copies)
      && (os != [] ==> Owner(c, x) == Some(os[0]))
  {
    var o := Order(c, x);
    SpreadPlacesWell(c, o, copies);
    if Owners(c, x, copies) != [] {
      FirstIsFirst(c.nodes, o);
    }
  }

  lemma FirstIsFirst(nodes: map<Name, Node>, o: seq<Name>)
    requires Spread(nodes, o) != []
    ensures o != [] && Spread(nodes, o)[0] == o[0]
  {
    if o != [] {
      assert Firsts(nodes, o, {})[0] == o[0];
    }
  }

  /** A prefix of the preference reaches as many domains as it has nodes, until it has them all. */
  lemma SpreadSpan(nodes: map<Name, Node>, o: seq<Name>, k: nat)
    requires k <= |Spread(nodes, o)|
    ensures |Domains(nodes, Spread(nodes, o)[..k])| == Min(k, |Domains(nodes, o)|)
  {
    var f, r := Firsts(nodes, o, {}), Crowded(nodes, o, {});
    FirstsCover(nodes, o, {});
    if k <= |f| {
      assert (f + r)[..k] == f[..k];
      DomainsPrefix(nodes, f, k);
    } else {
      var more := r[..k - |f|];
      assert (f + r)[..k] == f + more;
      CrowdedWithin(nodes, o, {});
      assert Domains(nodes, f + more) == Domains(nodes, o);
    }
  }

  /** Distinct domains stay distinct in a prefix. */
  lemma {:induction false} DomainsPrefix(nodes: map<Name, Node>, f: seq<Name>, k: nat)
    requires k <= |f| && |Domains(nodes, f)| == |f|
    ensures |Domains(nodes, f[..k])| == k
    decreases |f|
  {
    if k < |f| {
      var g := f[..|f| - 1];
      assert f == g + [f[|f| - 1]];
      DomainsConcat(nodes, g, [f[|f| - 1]]);
      assert Domains(nodes, [f[|f| - 1]]) == {DomainOf(nodes, f[|f| - 1])};
      DomainsAtMost(nodes, g);
      DomainsPrefix(nodes, g, k);
      assert g[..k] == f[..k];
    } else {
      assert f[..k] == f;
    }
  }

  lemma {:induction false} DomainsAtMost(nodes: map<Name, Node>, f: seq<Name>)
    ensures |Domains(nodes, f)| <= |f|
  {
    if f != [] {
      DomainsAtMost(nodes, f[1..]);
      assert f == [f[0]] + f[1..];
      DomainsConcat(nodes, [f[0]], f[1..]);
      assert Domains(nodes, [f[0]]) == {DomainOf(nodes, f[0])};
    }
  }

  lemma CrowdedWithin(nodes: map<Name, Node>, o: seq<Name>, used: set<Domain>)
    ensures forall n :: n in Crowded(nodes, o, used) ==> n in o
  {
    SpreadPermutes(nodes, o, used);
    forall n | n in Crowded(nodes, o, used) ensures n in o {
      assert n in multiset(Firsts(nodes, o, used) + Crowded(nodes, o, used));
    }
  }

  /** Asking for more copies only extends the answer. */
  lemma MoreCopiesExtend(c: Cluster, x: U64, k: nat, l: nat)
    requires WellFormed(c) && k <= l
    ensures Owners(c, x, k) <= Owners(c, x, l)
  {
  }

  // ---- The order of preference ----

  /** `n` is met before every other live node of its failure domain. */
  ghost predicate Leads(c: Cluster, x: U64, n: Name) {
    n in LiveNames(c) &&
    forall m :: m in LiveNames(c) && m != n && DomainOf(c.nodes, m) == DomainOf(c.nodes, n) ==> Before(c, x, n, m)
  }

  /** Nodes that lead their domain go before nodes that do not, and otherwise who is met first. */
  ghost predicate Preferred(c: Cluster, x: U64, n: Name, m: Name) {
    if Leads(c, x, n) == Leads(c, x, m) then Before(c, x, n, m) else Leads(c, x, n)
  }

  /** Each holder is preferred to every holder after it and to every live node that holds nothing. */
  lemma HoldersPreferred(c: Cluster, x: U64, copies: nat, i: nat, n: Name)
    requires WellFormed(c) && i < |Owners(c, x, copies)|
    requires n in LiveNames(c) && n !in Owners(c, x, copies)[..i + 1]
    ensures Preferred(c, x, Owners(c, x, copies)[i], n)
  {
    var o := Order(c, x);
    var s := Spread(c.nodes, o);
    SpreadPermutes(c.nodes, o, {});
    assert n in Elements(o) && n in multiset(o) && n in s;
    var j :| 0 <= j < |s| && s[j] == n;
    assert Owners(c, x, copies)[..i + 1] == s[..i + 1];
    InPrefix(s, j, i + 1);
    SpreadPreferred(c, x, i, j);
  }

  lemma InPrefix(s: seq<Name>, j: nat, k: nat)
    requires j < |s| && k <= |s|
    ensures j < k ==> s[j] in s[..k]
  {
    if j < k {
      assert s[..k][j] == s[j];
    }
  }

  lemma SpreadPreferred(c: Cluster, x: U64, i: nat, j: nat)
    requires WellFormed(c) && i < j < |Spread(c.nodes, Order(c, x))|
    ensures Preferred(c, x, Spread(c.nodes, Order(c, x))[i], Spread(c.nodes, Order(c, x))[j])
  {
    var o := Order(c, x);
    var f, r := Firsts(c.nodes, o, {}), Crowded(c.nodes, o, {});
    var s := f + r;
    FirstsLead(c, x, s[i]);
    FirstsLead(c, x, s[j]);
    PickInOrder(c, x, o, {}, true);
    PickInOrder(c, x, o, {}, false);
    FirstsAndCrowded(c, x, i);
    FirstsAndCrowded(c, x, j);
    if j < |f| {
      assert Before(c, x, f[i], f[j]);
    } else if i >= |f| {
      assert Before(c, x, r[i - |f|], r[j - |f|]);
    }
  }

  /** The crowded nodes are the ones that are not first. */
  lemma FirstsAndCrowded(c: Cluster, x: U64, i: nat)
    requires WellFormed(c) && i < |Spread(c.nodes, Order(c, x))|
    ensures Spread(c.nodes, Order(c, x))[i] in Firsts(c.nodes, Order(c, x), {}) <==>
            i < |Firsts(c.nodes, Order(c, x), {})|
  {
    var o := Order(c, x);
    var f, s := Firsts(c.nodes, o, {}), Spread(c.nodes, o);
    SpreadPermutes(c.nodes, o, {});
    DistinctFromMultiset(o, s);
    assert forall k :: 0 <= k < |f| ==> f[k] == s[k];
  }

  /** What is picked is in the order it is picked from. */
  lemma {:induction false} PickInOrder(c: Cluster, x: U64, o: seq<Name>, used: set<Domain>, first: bool)
    requires InOrder(c, x, o)
    ensures InOrder(c, x, Pick(c.nodes, o, used, first))
    ensures forall n :: n in Pick(c.nodes, o, used, first) ==> n in o
  {
    if o != [] {
      var u := used + {DomainOf(c.nodes, o[0])};
      PickInOrder(c, x, o[1..], u, first);
      var rest := Pick(c.nodes, o[1..], u, first);
      forall i | 0 <= i < |rest| ensures Before(c, x, o[0], rest[i]) {
        assert rest[i] in rest;
        var k :| 0 <= k < |o[1..]| && o[1..][k] == rest[i];
        assert Before(c, x, o[0], o[k + 1]);
      }
    }
  }

  lemma {:induction false} FirstsHold(nodes: map<Name, Node>, o: seq<Name>, used: set<Domain>, k: nat)
    requires Distinct(o) && k < |o|
    ensures o[k] in Firsts(nodes, o, used) <==> DomainOf(nodes, o[k]) !in used + Domains(nodes, o[..k])
  {
    var u := used + {DomainOf(nodes, o[0])};
    var rest := Pick(nodes, o[1..], u, true);
    if k == 0 {
      assert o[..0] == [];
      PickWithin(nodes, o[1..], u, true);
      assert o[0] !in o[1..];
    } else {
      FirstsHold(nodes, o[1..], u, k - 1);
      assert o[..k] == [o[0]] + o[1..][..k - 1];
      DomainsConcat(nodes, [o[0]], o[1..][..k - 1]);
      assert Domains(nodes, [o[0]]) == {DomainOf(nodes, o[0])};
      assert o[1..][k - 1] == o[k] != o[0];
    }
  }

  lemma {:induction false} PickWithin(nodes: map<Name, Node>, o: seq<Name>, used: set<Domain>, first: bool)
    ensures forall n :: n in Pick(nodes, o, used, first) ==> n in o
  {
    if o != [] {
      PickWithin(nodes, o[1..], used + {DomainOf(nodes, o[0])}, first);
    }
  }

  lemma FirstsLead(c: Cluster, x: U64, n: Name)
    requires WellFormed(c) && n in Spread(c.nodes, Order(c, x))
    ensures n in Firsts(c.nodes, Order(c, x), {}) <==> Leads(c, x, n)
  {
    var o := Order(c, x);
    SpreadPermutes(c.nodes, o, {});
    assert n in multiset(Spread(c.nodes, o)) && n in o && n in Elements(o);
    var k :| 0 <= k < |o| && o[k] == n;
    FirstsHold(c.nodes, o, {}, k);
    assert {} + Domains(c.nodes, o[..k]) == Domains(c.nodes, o[..k]);
    LeadsIsNew(c, x, o, k);
  }

  /** A node leads its domain exactly when no node met earlier is of that domain. */
  lemma LeadsIsNew(c: Cluster, x: U64, o: seq<Name>, k: nat)
    requires IsWalk(c, x, o) && k < |o|
    ensures Leads(c, x, o[k]) <==> DomainOf(c.nodes, o[k]) !in Domains(c.nodes, o[..k])
  {
    assert o[k] in Elements(o);
    if DomainOf(c.nodes, o[k]) in Domains(c.nodes, o[..k]) {
      var m :| m in o[..k] && DomainOf(c.nodes, m) == DomainOf(c.nodes, o[k]);
      LeaderIsFirst(c, x, o, k, m);
    } else {
      forall m | m in LiveNames(c) && m != o[k] && DomainOf(c.nodes, m) == DomainOf(c.nodes, o[k])
        ensures Before(c, x, o[k], m)
      {
        assert m in Elements(o);
        var j :| 0 <= j < |o| && o[j] == m;
        InPrefix(o, j, k);
      }
    }
  }

  lemma LeaderIsFirst(c: Cluster, x: U64, o: seq<Name>, k: nat, m: Name)
    requires IsWalk(c, x, o) && k < |o| && m in o[..k]
    ensures m in LiveNames(c) && m != o[k] && !Before(c, x, o[k], m)
  {
    var j :| 0 <= j < k && o[j] == m;
    assert m in Elements(o);
    BeforeAsymmetric(c, x, o[j], o[k]);
  }
}
