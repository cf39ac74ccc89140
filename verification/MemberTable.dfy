/** The member table: names in order, failure domains as numbers, and who is live. */
module MemberTable {
  import opened Words
  import opened Names
  import opened Clusters
  import opened Placement
  import opened Replicas

  // ---- Numbering of failure domains ----

  ghost function First(ds: seq<Domain>, d: Domain): (i: nat)
    requires d in ds
    ensures i < |ds| && ds[i] == d && d !in ds[..i]
  {
    if ds[0] == d then 0
    else
      var j := First(ds[1..], d);
      assert ds[..j + 1] == [ds[0]] + ds[1..][..j];
      j + 1
  }

  /** A domain's number is how many other domains come before its first member. */
  ghost function NumberOf(ds: seq<Domain>, d: Domain): nat
    requires d in ds
  {
    |Elements(ds[..First(ds, d)])|
  }

  ghost function Numbers(ds: seq<Domain>): (r: seq<nat>)
    ensures |r| == |ds|
    ensures forall i :: 0 <= i < |ds| ==> r[i] == NumberOf(ds, ds[i])
  {
    seq(|ds|, i requires 0 <= i < |ds| => NumberOf(ds, ds[i]))
  }

  ghost function DomainSeq(nodes: map<Name, Node>, ms: seq<Name>): (r: seq<Domain>)
    ensures |r| == |ms|
    ensures forall i :: 0 <= i < |ms| ==> r[i] == DomainOf(nodes, ms[i])
  {
    seq(|ms|, i requires 0 <= i < |ms| => DomainOf(nodes, ms[i]))
  }

  lemma FirstIs(ds: seq<Domain>, d: Domain, i: nat)
    requires i < |ds| && ds[i] == d && d !in ds[..i]
    ensures First(ds, d) == i
  {
  }

  lemma NumberExtends(ds: seq<Domain>, e: Domain, d: Domain)
    requires d in ds
    ensures NumberOf(ds + [e], d) == NumberOf(ds, d)
  {
    var i := First(ds, d);
    assert (ds + [e])[..i] == ds[..i];
    FirstIs(ds + [e], d, i);
  }

  lemma NumberNew(ds: seq<Domain>, e: Domain)
    requires e !in ds
    ensures NumberOf(ds + [e], e) == |Elements(ds)|
  {
  }

  lemma SubsetSize<T>(a: set<T>, b: set<T>)
    requires a <= b
    ensures |a| <= |b|
    ensures a != b ==> |a| < |b|
  {
    assert b == a + (b - a);
  }

  /** Different domains have different numbers. */
  lemma NumberInjective(ds: seq<Domain>, d: Domain, e: Domain)
    requires d in ds && e in ds
    ensures NumberOf(ds, d) == NumberOf(ds, e) <==> d == e
  {
    if First(ds, d) < First(ds, e) {
      NumberLess(ds, d, e);
    } else if First(ds, e) < First(ds, d) {
      NumberLess(ds, e, d);
    }
  }

  lemma NumberLess(ds: seq<Domain>, d: Domain, e: Domain)
    requires d in ds && e in ds && First(ds, d) < First(ds, e)
    ensures NumberOf(ds, d) < NumberOf(ds, e)
  {
    var i, j := First(ds, d), First(ds, e);
    var a, b := Elements(ds[..i]), Elements(ds[..j]);
    assert d in b && d !in a;
    SubsetSize(a, b);
  }

  /** Domains are numbered 0, 1, 2 and so on in the order their first members come. */
  lemma NumbersInOrder(ds: seq<Domain>, i: nat, j: nat)
    requires i < |ds| && j < |ds|
    ensures Numbers(ds)[0] == 0 && Numbers(ds)[i] < |Elements(ds)|
    ensures First(ds, ds[i]) < First(ds, ds[j]) ==> Numbers(ds)[i] < Numbers(ds)[j]
  {
    var p, q := First(ds, ds[i]), First(ds, ds[j]);
    assert ds[..0] == [];
    assert ds[i] in Elements(ds) && ds[i] !in Elements(ds[..p]) && Elements(ds[..p]) <= Elements(ds);
    SubsetSize(Elements(ds[..p]), Elements(ds));
    if p < q {
      assert ds[p] in ds[..q];
      assert Elements(ds[..p]) <= Elements(ds[..q]);
      SubsetSize(Elements(ds[..p]), Elements(ds[..q]));
    }
  }

  /** Numbers are equal exactly within one named zone or for one and the same member. */
  lemma SameNumberSameZone(nodes: map<Name, Node>, ms: seq<Name>, i: nat, j: nat)
    requires Distinct(ms) && Elements(ms) == nodes.Keys && i < |ms| && j < |ms|
    ensures ms[i] in nodes && ms[j] in nodes
    ensures Numbers(DomainSeq(nodes, ms))[i] == Numbers(DomainSeq(nodes, ms))[j] <==>
            i == j || (nodes[ms[i]].zone.Some? && nodes[ms[i]].zone == nodes[ms[j]].zone)
  {
    var ds := DomainSeq(nodes, ms);
    NumberInjective(ds, ds[i], ds[j]);
  }

  /** `nodes.keys()` of a `BTreeMap`. */
  method KeysInOrder(nodes: map<Name, Node>) returns (keys: seq<Name>)
    ensures Ascending(keys) && Elements(keys) == nodes.Keys
  {
    keys := Sorted(nodes.Keys);
  }

  /** The members in name order and, while a u32 can number them, the number of each one's domain:
      how many domains come before it. */
  method BuildMemberTable(nodes: map<Name, Node>) returns (members: seq<Name>, domains: seq<nat>)
    ensures Ascending(members) && Elements(members) == nodes.Keys
    ensures |domains| == |members|
    ensures |members| <= U32_SIZE ==> domains == Numbers(DomainSeq(nodes, members))
  {
    var keys := KeysInOrder(nodes);
    members := [];
    domains := [];
    var zoneIds: map<Name, nat> := map[];
    var nextId: U32 := 0;
    ghost var met := 0;
    for i := 0 to |keys|
      invariant members == keys[..i] && |domains| == i && met <= i && nextId == AsU32(met)
      invariant NumberedWhere(nodes, keys, i, domains, zoneIds, met)
    {
      var node := Lookup(nodes, keys, i);
      NumberedMore(nodes, keys, i, domains, zoneIds, met);
      members := members + [keys[i]];
      if node.zone.Some? {
        if node.zone.value !in zoneIds {
          zoneIds := zoneIds[node.zone.value := nextId];
          nextId := AsU32(nextId + 1);
          met := met + 1;
        }
        domains := domains + [zoneIds[node.zone.value]];
      } else {
        domains := domains + [nextId];
        nextId := AsU32(nextId + 1);
        met := met + 1;
      }
    }
    assert keys[..|keys|] == keys;
  }

  /** The node at a position of the iteration order. */
  function Lookup(nodes: map<Name, Node>, keys: seq<Name>, i: nat): (node: Node)
    requires i < |keys| && Elements(keys) == nodes.Keys
    ensures keys[i] in nodes && node == nodes[keys[i]]
  {
    assert keys[i] in Elements(keys);
    nodes[keys[i]]
  }

  lemma DomainSeqAppend(nodes: map<Name, Node>, keys: seq<Name>, i: nat)
    requires i < |keys|
    ensures keys[..i + 1] == keys[..i] + [keys[i]]
    ensures DomainSeq(nodes, keys[..i + 1]) == DomainSeq(nodes, keys[..i]) + [DomainOf(nodes, keys[i])]
  {
  }

  ghost predicate Numbered(ds: seq<Domain>, domains: seq<nat>, ids: map<Name, nat>, next: nat) {
    domains == Numbers(ds) && next == |Elements(ds)| && ZonesNumbered(ds, ids)
  }

  lemma NumberedZone(ds: seq<Domain>, domains: seq<nat>, ids: map<Name, nat>, next: nat, z: Name)
    requires Numbered(ds, domains, ids, next)
    ensures z in ids ==> Numbered(ds + [Zone(z)], domains + [ids[z]], ids, next)
    ensures z !in ids ==> Numbered(ds + [Zone(z)], domains + [next], ids[z := next], next + 1)
  {
    NumbersAppend(ds, Zone(z));
    ZonesAppend(ds, ids, z);
  }

  lemma NumberedAlone(nodes: map<Name, Node>, keys: seq<Name>, i: nat, domains: seq<nat>, ids: map<Name, nat>,
                      next: nat)
    requires Distinct(keys) && i < |keys| && DomainOf(nodes, keys[i]).Alone?
    requires Numbered(DomainSeq(nodes, keys[..i]), domains, ids, next)
    ensures Numbered(DomainSeq(nodes, keys[..i]) + [Alone(keys[i])], domains + [next], ids, next + 1)
  {
    var ds := DomainSeq(nodes, keys[..i]);
    AloneIsNew(nodes, keys, i);
    NumbersAppend(ds, Alone(keys[i]));
    ZonesAlone(ds, ids, keys[i]);
  }

  /** The first `i` members' domains are numbered, where a u32 can number the members. */
  ghost predicate NumberedWhere(nodes: map<Name, Node>, keys: seq<Name>, i: nat, domains: seq<nat>,
                                ids: map<Name, nat>, met: nat)
    requires i <= |keys|
  {
    |keys| <= U32_SIZE ==> Numbered(DomainSeq(nodes, keys[..i]), domains, ids, met)
  }

  /** Every branch of one step numbers the member it adds. */
  lemma NumberedMore(nodes: map<Name, Node>, keys: seq<Name>, i: nat, domains: seq<nat>, ids: map<Name, nat>, met: nat)
    requires Ascending(keys) && i < |keys| && keys[i] in nodes && met <= i
    requires NumberedWhere(nodes, keys, i, domains, ids, met)
    ensures keys[..i + 1] == keys[..i] + [keys[i]]
    ensures
      var next, zone := AsU32(met), nodes[keys[i]].zone;
      && (zone.None? ==> NumberedWhere(nodes, keys, i + 1, domains + [next], ids, met + 1))
      && (zone.Some? && zone.value in ids ==>
            NumberedWhere(nodes, keys, i + 1, domains + [ids[zone.value]], ids, met))
      && (zone.Some? && zone.value !in ids ==>
            NumberedWhere(nodes, keys, i + 1, domains + [next], ids[zone.value := next], met + 1))
  {
    if |keys| <= U32_SIZE {
      DomainSeqAppend(nodes, keys, i);
      AscendingIsDistinct(keys);
      match nodes[keys[i]].zone {
        case None => NumberedAlone(nodes, keys, i, domains, ids, met);
        case Some(z) => NumberedZone(DomainSeq(nodes, keys[..i]), domains, ids, met, z);
      }
    }
  }

  /** The zone map holds the number of every zone met so far. */
  ghost predicate ZonesNumbered(ds: seq<Domain>, ids: map<Name, nat>) {
    && (forall z :: z in ids <==> Zone(z) in ds)
    && (forall z :: z in ids ==> ids[z] == NumberOf(ds, Zone(z)))
  }

  lemma NumbersKept(ds: seq<Domain>, d: Domain)
    ensures Numbers(ds + [d]) == Numbers(ds) + [NumberOf(ds + [d], d)]
  {
    var fs := ds + [d];
    forall i | 0 <= i < |ds| ensures Numbers(fs)[i] == Numbers(ds)[i] {
      NumberExtends(ds, d, ds[i]);
    }
  }

  lemma NumbersAppend(ds: seq<Domain>, d: Domain)
    ensures Numbers(ds + [d]) == Numbers(ds) + [NumberOf(ds + [d], d)]
    ensures d in ds ==> NumberOf(ds + [d], d) == NumberOf(ds, d) && Elements(ds + [d]) == Elements(ds)
    ensures d !in ds ==> NumberOf(ds + [d], d) == |Elements(ds)| && |Elements(ds + [d])| == |Elements(ds)| + 1
  {
    NumbersKept(ds, d);
    assert Elements(ds + [d]) == Elements(ds) + {d};
    if d in ds {
      NumberExtends(ds, d, d);
    }
  }

  lemma ZonesAppend(ds: seq<Domain>, ids: map<Name, nat>, z: Name)
    requires ZonesNumbered(ds, ids)
    ensures z in ids <==> Zone(z) in ds
    ensures z in ids ==> ZonesNumbered(ds + [Zone(z)], ids)
    ensures z !in ids ==> ZonesNumbered(ds + [Zone(z)], ids[z := |Elements(ds)|])
  {
    var next := if z in ids then ids else ids[z := |Elements(ds)|];
    if z !in ids {
      NumberNew(ds, Zone(z));
    }
    forall y | y in ids ensures next[y] == NumberOf(ds + [Zone(z)], Zone(y)) {
      NumberExtends(ds, Zone(z), Zone(y));
    }
  }

  lemma ZonesAlone(ds: seq<Domain>, ids: map<Name, nat>, n: Name)
    requires ZonesNumbered(ds, ids)
    ensures ZonesNumbered(ds + [Alone(n)], ids)
  {
    forall z | z in ids ensures ids[z] == NumberOf(ds + [Alone(n)], Zone(z)) {
      NumberExtends(ds, Alone(n), Zone(z));
    }
  }

  lemma AloneIsNew(nodes: map<Name, Node>, keys: seq<Name>, i: nat)
    requires Distinct(keys) && i < |keys|
    ensures Alone(keys[i]) !in DomainSeq(nodes, keys[..i])
  {
  }

  // ---- Liveness ----

  ghost function LiveAmong(c: Cluster, ms: seq<Name>): set<Name> {
    set n | n in ms && n in LiveNames(c)
  }

  ghost function LiveDomainsAmong(c: Cluster, ms: seq<Name>): set<Domain> {
    set n | n in ms && n in LiveNames(c) :: DomainOf(c.nodes, n)
  }

  lemma AllAmong(c: Cluster, ms: seq<Name>)
    requires Lists(c, ms)
    ensures LiveAmong(c, ms) == LiveNames(c) && LiveDomainsAmong(c, ms) == LiveDomains(c)
  {
  }

  lemma LiveDomainsStep(c: Cluster, ms: seq<Name>, i: nat)
    requires Lists(c, ms) && i < |ms|
    ensures ms[i] in c.nodes
    ensures LiveDomainsAmong(c, ms[..i + 1]) ==
            LiveDomainsAmong(c, ms[..i]) + if c.nodes[ms[i]].state.Live? then {DomainOf(c.nodes, ms[i])} else {}
  {
  }

  method FlagLive(nodes: map<Name, Node>, ghost c: Cluster, ghost ms: seq<Name>) returns (live: seq<bool>)
    requires c.nodes == nodes && Lists(c, ms)
    ensures LiveFlags(c, ms, live)
  {
    var keys := KeysInOrder(nodes);
    AscendingUnique(keys, ms);
    live := [];
    for i := 0 to |keys|
      invariant |live| == i
      invariant forall j :: 0 <= j < i ==> keys[j] in nodes && live[j] == nodes[keys[j]].state.Live?
    {
      var node := Lookup(nodes, keys, i);
      live := live + [node.state.Live?];
    }
    assert forall j :: 0 <= j < |ms| ==> ms[j] in Elements(ms);
  }

  lemma LiveStepCount(c: Cluster, ms: seq<Name>, i: nat)
    requires Lists(c, ms) && Distinct(ms) && i < |ms|
    ensures ms[i] in c.nodes
    ensures |LiveAmong(c, ms[..i + 1])| == |LiveAmong(c, ms[..i])| + if c.nodes[ms[i]].state.Live? then 1 else 0
  {
    if c.nodes[ms[i]].state.Live? {
      assert LiveAmong(c, ms[..i + 1]) == LiveAmong(c, ms[..i]) + {ms[i]};
    }
  }

  method CountLive(live: seq<bool>, ghost c: Cluster, ghost ms: seq<Name>) returns (n: nat)
    requires Lists(c, ms) && LiveFlags(c, ms, live)
    ensures n == |LiveNames(c)|
  {
    n := 0;
    AscendingIsDistinct(ms);
    for i := 0 to |live|
      invariant n == |LiveAmong(c, ms[..i])|
    {
      LiveStepCount(c, ms, i);
      if live[i] {
        n := n + 1;
      }
    }
    assert ms[..|ms|] == ms;
    AllAmong(c, ms);
  }

  /** `seen` holds the numbers of the domains in `some`, one each. */
  ghost predicate Represents(ds: seq<Domain>, seen: set<nat>, some: set<Domain>) {
    AllNumbered(ds, seen, some) && AllNumbers(ds, seen, some) && |seen| == |some|
  }

  ghost predicate AllNumbered(ds: seq<Domain>, seen: set<nat>, some: set<Domain>) {
    forall d :: d in some ==> d in ds && NumberOf(ds, d) in seen
  }

  ghost predicate AllNumbers(ds: seq<Domain>, seen: set<nat>, some: set<Domain>) {
    forall k :: k in seen ==> IsNumberIn(ds, some, k)
  }

  /** `k` is the number of one of the domains in `some`. */
  ghost predicate IsNumberIn(ds: seq<Domain>, some: set<Domain>, k: nat) {
    exists d :: d in some && d in ds && NumberOf(ds, d) == k
  }

  lemma NumberIsNew(ds: seq<Domain>, seen: set<nat>, some: set<Domain>, d: Domain)
    requires AllNumbers(ds, seen, some) && d in ds && d !in some
    ensures NumberOf(ds, d) !in seen
  {
    if NumberOf(ds, d) in seen {
      var e :| e in some && e in ds && NumberOf(ds, e) == NumberOf(ds, d);
      NumberInjective(ds, d, e);
      assert false;
    }
  }

  lemma RepresentsOneMore(ds: seq<Domain>, seen: set<nat>, some: set<Domain>, d: Domain)
    requires Represents(ds, seen, some) && d in ds
    ensures Represents(ds, seen + {NumberOf(ds, d)}, some + {d})
  {
    AllNumbersMore(ds, seen, some, d);
    if d in some {
      Absorbed(seen, NumberOf(ds, d));
      Absorbed(some, d);
    } else {
      NumberIsNew(ds, seen, some, d);
      GrowsByOne(seen, NumberOf(ds, d));
      GrowsByOne(some, d);
    }
  }

  lemma GrowsByOne<T>(s: set<T>, x: T)
    requires x !in s
    ensures |s + {x}| == |s| + 1
  {
  }

  lemma Absorbed<T>(s: set<T>, x: T)
    requires x in s
    ensures |s + {x}| == |s|
  {
    assert s + {x} == s;
  }

  lemma AllNumbersMore(ds: seq<Domain>, seen: set<nat>, some: set<Domain>, d: Domain)
    requires AllNumbers(ds, seen, some) && d in ds
    ensures AllNumbers(ds, seen + {NumberOf(ds, d)}, some + {d})
  {
  }

  /** The domains of the live members among the first `i`, by number. */
  ghost predicate CountedTo(c: Cluster, ms: seq<Name>, i: nat, seen: set<nat>)
    requires i <= |ms|
  {
    Represents(DomainSeq(c.nodes, ms), seen, LiveDomainsAmong(c, ms[..i]))
  }

  lemma CountedOneMore(c: Cluster, ms: seq<Name>, i: nat, seen: set<nat>)
    requires Lists(c, ms) && i < |ms| && CountedTo(c, ms, i, seen)
    ensures ms[i] in c.nodes
    ensures
      var number := Numbers(DomainSeq(c.nodes, ms))[i];
      CountedTo(c, ms, i + 1, if c.nodes[ms[i]].state.Live? then seen + {number} else seen)
  {
    var ds := DomainSeq(c.nodes, ms);
    LiveDomainsStep(c, ms, i);
    if c.nodes[ms[i]].state.Live? {
      RepresentsOneMore(ds, seen, LiveDomainsAmong(c, ms[..i]), ds[i]);
    }
  }

  method CountLiveDomains(domains: seq<nat>, live: seq<bool>, ghost c: Cluster, ghost ms: seq<Name>) returns (n: nat)
    requires Lists(c, ms) && LiveFlags(c, ms, live) && |domains| == |ms|
    ensures domains == Numbers(DomainSeq(c.nodes, ms)) ==> n == |LiveDomains(c)|
  {
    var seen: set<nat> := {};
    CountedNone(domains, c, ms);
    for i := 0 to |domains|
      invariant CountedWhere(domains, c, ms, i, seen)
    {
      CountedWhereMore(domains, c, ms, live, i, seen);
      if live[i] {
        seen := seen + {domains[i]};
      }
    }
    CountedAll(domains, c, ms, seen);
    n := |seen|;
  }

  /** The count is right where the domains have their numbers. */
  ghost predicate CountedWhere(domains: seq<nat>, c: Cluster, ms: seq<Name>, i: nat, seen: set<nat>)
    requires i <= |ms|
  {
    domains == Numbers(DomainSeq(c.nodes, ms)) ==> CountedTo(c, ms, i, seen)
  }

  lemma CountedNone(domains: seq<nat>, c: Cluster, ms: seq<Name>)
    ensures CountedWhere(domains, c, ms, 0, {})
  {
    assert LiveDomainsAmong(c, ms[..0]) == {};
  }

  lemma CountedWhereMore(domains: seq<nat>, c: Cluster, ms: seq<Name>, live: seq<bool>, i: nat, seen: set<nat>)
    requires Lists(c, ms) && LiveFlags(c, ms, live) && |domains| == |ms| && i < |ms|
    requires CountedWhere(domains, c, ms, i, seen)
    ensures CountedWhere(domains, c, ms, i + 1, if live[i] then seen + {domains[i]} else seen)
  {
    if domains == Numbers(DomainSeq(c.nodes, ms)) {
      CountedOneMore(c, ms, i, seen);
    }
  }

  lemma CountedAll(domains: seq<nat>, c: Cluster, ms: seq<Name>, seen: set<nat>)
    requires Lists(c, ms) && CountedWhere(domains, c, ms, |ms|, seen)
    ensures domains == Numbers(DomainSeq(c.nodes, ms)) ==> |seen| == |LiveDomains(c)|
  {
    assert ms[..|ms|] == ms;
    AllAmong(c, ms);
  }

  // ---- The number of failure domains ----

  ghost function LiveZones(c: Cluster): set<Name> {
    set n | n in LiveNames(c) && c.nodes[n].zone.Some? :: c.nodes[n].zone.value
  }

  ghost function LiveUnzoned(c: Cluster): set<Name> {
    set n | n in LiveNames(c) && c.nodes[n].zone.None?
  }

  lemma {:induction false} ZoneImage(zs: set<Name>)
    ensures |set z | z in zs :: Zone(z)| == |zs|
  {
    if zs != {} {
      var z :| z in zs;
      ZoneImage(zs - {z});
      assert (set y | y in zs :: Zone(y)) == (set y | y in zs - {z} :: Zone(y)) + {Zone(z)};
    }
  }

  lemma {:induction false} AloneImage(ns: set<Name>)
    ensures |set n | n in ns :: Alone(n)| == |ns|
  {
    if ns != {} {
      var n :| n in ns;
      AloneImage(ns - {n});
      assert (set y | y in ns :: Alone(y)) == (set y | y in ns - {n} :: Alone(y)) + {Alone(n)};
    }
  }

  /** The live domains are as many as the zones with a live node and the live nodes in none. */
  lemma FailureDomainsCounted(c: Cluster)
    ensures |LiveDomains(c)| == |LiveZones(c)| + |LiveUnzoned(c)|
  {
    var zoned := set z | z in LiveZones(c) :: Zone(z);
    var alone := set n | n in LiveUnzoned(c) :: Alone(n);
    ZoneImage(LiveZones(c));
    AloneImage(LiveUnzoned(c));
    assert LiveDomains(c) == zoned + alone by {
      forall n | n in LiveNames(c) ensures DomainOf(c.nodes, n) in zoned + alone {
        if c.nodes[n].zone.Some? {
        } else {
          assert n in LiveUnzoned(c);
        }
      }
      forall d | d in zoned + alone ensures d in LiveDomains(c) {
        if d in zoned {
          var n :| n in LiveNames(c) && c.nodes[n].zone.Some? && c.nodes[n].zone.value == d.zone;
        } else {
          assert DomainOf(c.nodes, d.name) == d;
        }
      }
    }
  }
}
