/** What each membership operation does to the membership itself. */
module Operations {
  import opened Words
  import opened Names
  import opened Clusters

  datatype ConfigError =
    | EmptyName
    | ZeroWeight(name: Name)
    | AlreadyMember(name: Name)
    | EmptyZone(name: Name)
    | TwiceInBatch(name: Name)

  /** A node asking to join, in a zone or in none. */
  datatype Joining = Joining(name: Name, weight: U32, zone: Option<Name>)

  function CheckNewNode(nodes: map<Name, Node>, name: Name, weight: U32): (r: Result<ConfigError>)
    ensures r.Ok? <==> name != [] && weight > 0 && name !in nodes
    ensures r == Err(EmptyName) <==> name == []
    ensures r == Err(ZeroWeight(name)) <==> name != [] && weight == 0
    ensures r == Err(AlreadyMember(name)) <==> name != [] && weight > 0 && name in nodes
  {
    if name == [] then Err(EmptyName)
    else if weight == 0 then Err(ZeroWeight(name))
    else if name in nodes then Err(AlreadyMember(name))
    else Ok
  }

  function CheckJoining(nodes: map<Name, Node>, j: Joining): (r: Result<ConfigError>)
    ensures r.Ok? <==> j.name != [] && j.weight > 0 && j.name !in nodes && j.zone != Some([])
    ensures r == Err(EmptyZone(j.name)) <==> j.name != [] && j.weight > 0 && j.name !in nodes && j.zone == Some([])
    ensures r.Ok? || r == Err(EmptyZone(j.name)) || r == CheckNewNode(nodes, j.name, j.weight)
  {
    var check := CheckNewNode(nodes, j.name, j.weight);
    if check.Err? then check
    else if j.zone == Some([]) then Err(EmptyZone(j.name))
    else Ok
  }

  function Join(nodes: map<Name, Node>, j: Joining): map<Name, Node> {
    nodes[j.name := Node(j.name, j.weight, Live, j.zone)]
  }

  function JoinAll(nodes: map<Name, Node>, batch: seq<Joining>): map<Name, Node> {
    if batch == [] then nodes
    else Join(JoinAll(nodes, batch[..|batch| - 1]), batch[|batch| - 1])
  }

  function BatchNames(batch: seq<Joining>): set<Name> {
    set j | j in batch :: j.name
  }

  /** The first complaint about a batch, read in order: an entry the membership cannot take, or
      a name the batch has already used. */
  function CheckBatch(nodes: map<Name, Node>, batch: seq<Joining>): Result<ConfigError> {
    if batch == [] then Ok
    else
      var earlier, last := batch[..|batch| - 1], batch[|batch| - 1];
      var check := CheckBatch(nodes, earlier);
      if check.Err? then check
      else
        var one := CheckJoining(nodes, last);
        if one.Err? then one
        else if last.name in BatchNames(earlier) then Err(TwiceInBatch(last.name))
        else Ok
  }

  /** A batch is taken when every entry could join and no name is used twice. */
  lemma {:induction false} BatchTaken(nodes: map<Name, Node>, batch: seq<Joining>)
    ensures CheckBatch(nodes, batch).Ok? <==>
      && (forall i :: 0 <= i < |batch| ==> CheckJoining(nodes, batch[i]).Ok?)
      && DistinctNames(batch)
  {
    if batch != [] {
      var earlier, last := batch[..|batch| - 1], batch[|batch| - 1];
      BatchTaken(nodes, earlier);
      assert forall i :: 0 <= i < |earlier| ==> earlier[i] == batch[i];
    }
  }

  /** The complaint about a batch is about its first entry that cannot join or repeats a name. */
  lemma {:induction false} FirstComplaint(nodes: map<Name, Node>, batch: seq<Joining>) returns (i: nat)
    requires CheckBatch(nodes, batch).Err?
    ensures i < |batch| && DistinctNames(batch[..i]) && forall k :: 0 <= k < i ==> CheckJoining(nodes, batch[k]).Ok?
    ensures CheckJoining(nodes, batch[i]).Err? ==> CheckBatch(nodes, batch) == CheckJoining(nodes, batch[i])
    ensures CheckJoining(nodes, batch[i]).Ok? ==>
      && CheckBatch(nodes, batch) == Err(TwiceInBatch(batch[i].name))
      && exists k :: 0 <= k < i && batch[k].name == batch[i].name
  {
    var earlier := batch[..|batch| - 1];
    if CheckBatch(nodes, earlier).Err? {
      i := FirstComplaint(nodes, earlier);
      assert earlier[..i] == batch[..i];
    } else {
      i := |batch| - 1;
      BatchTaken(nodes, earlier);
      assert forall k :: 0 <= k < i ==> earlier[k] == batch[k];
      if batch[i].name in BatchNames(earlier) {
        var j :| j in earlier && j.name == batch[i].name;
      }
    }
  }

  /** A complaint about the start of a batch is the complaint about the batch. */
  lemma {:induction false} BatchStops(nodes: map<Name, Node>, batch: seq<Joining>, i: nat)
    requires i <= |batch| && CheckBatch(nodes, batch[..i]).Err?
    ensures CheckBatch(nodes, batch) == CheckBatch(nodes, batch[..i])
    decreases |batch|
  {
    if i < |batch| {
      var earlier := batch[..|batch| - 1];
      assert earlier[..i] == batch[..i];
      BatchStops(nodes, earlier, i);
    } else {
      assert batch[..i] == batch;
    }
  }

  lemma BatchStep(nodes: map<Name, Node>, batch: seq<Joining>, i: nat)
    requires i < |batch| && CheckBatch(nodes, batch[..i]).Ok?
    ensures CheckJoining(nodes, batch[i]).Err? ==> CheckBatch(nodes, batch) == CheckJoining(nodes, batch[i])
    ensures CheckJoining(nodes, batch[i]).Ok? && batch[i].name in BatchNames(batch[..i]) ==>
      CheckBatch(nodes, batch) == Err(TwiceInBatch(batch[i].name))
    ensures CheckJoining(nodes, batch[i]).Ok? && batch[i].name !in BatchNames(batch[..i]) ==>
      CheckBatch(nodes, batch[..i + 1]).Ok?
    ensures BatchNames(batch[..i + 1]) == BatchNames(batch[..i]) + {batch[i].name}
  {
    CheckLast(nodes, batch[..i], batch[i]);
    assert batch[..i + 1] == batch[..i] + [batch[i]];
    if CheckBatch(nodes, batch[..i + 1]).Err? {
      BatchStops(nodes, batch, i + 1);
    }
  }

  lemma CheckLast(nodes: map<Name, Node>, earlier: seq<Joining>, last: Joining)
    requires CheckBatch(nodes, earlier).Ok?
    ensures CheckBatch(nodes, earlier + [last]) ==
      if CheckJoining(nodes, last).Err? then CheckJoining(nodes, last)
      else if last.name in BatchNames(earlier) then Err(TwiceInBatch(last.name))
      else Ok
    ensures BatchNames(earlier + [last]) == BatchNames(earlier) + {last.name}
  {
    var batch := earlier + [last];
    assert batch[..|batch| - 1] == earlier;
  }

  function SetState(nodes: map<Name, Node>, name: Name, state: NodeState): map<Name, Node> {
    if name in nodes then nodes[name := nodes[name].(state := state)] else nodes
  }

  // ---- Runs ----

  datatype Op =
    | Add(one: Joining)
    | AddAll(batch: seq<Joining>)
    | Remove(name: Name)
    | Set(name: Name, state: NodeState)

  function Apply(nodes: map<Name, Node>, op: Op): map<Name, Node> {
    match op
    case Add(j) => if CheckJoining(nodes, j).Ok? then Join(nodes, j) else nodes
    case AddAll(batch) => if CheckBatch(nodes, batch).Ok? then JoinAll(nodes, batch) else nodes
    case Remove(name) => nodes - {name}
    case Set(name, state) => SetState(nodes, name, state)
  }

  function Run(nodes: map<Name, Node>, ops: seq<Op>): map<Name, Node> {
    if ops == [] then nodes else Apply(Run(nodes, ops[..|ops| - 1]), ops[|ops| - 1])
  }

  /** The operation builds a table: it takes in or lets go a member, or accepts a batch, which may
      be empty. */
  predicate Builds(nodes: map<Name, Node>, op: Op) {
    match op
    case Add(j) => CheckJoining(nodes, j).Ok?
    case AddAll(batch) => CheckBatch(nodes, batch).Ok?
    case Remove(name) => name in nodes
    case Set(_, _) => false
  }

  predicate EverBuilds(nodes: map<Name, Node>, ops: seq<Op>) {
    ops != [] &&
    var earlier, last := ops[..|ops| - 1], ops[|ops| - 1];
    EverBuilds(nodes, earlier) || Builds(Run(nodes, earlier), last)
  }

  lemma RunStep(nodes: map<Name, Node>, ops: seq<Op>, k: nat)
    requires k < |ops|
    ensures Run(nodes, ops[..k + 1]) == Apply(Run(nodes, ops[..k]), ops[k])
    ensures EverBuilds(nodes, ops[..k + 1]) <==> EverBuilds(nodes, ops[..k]) || Builds(Run(nodes, ops[..k]), ops[k])
  {
    assert ops[..k + 1][..k] == ops[..k];
  }

  function Singles(batch: seq<Joining>): (ops: seq<Op>)
    ensures |ops| == |batch| && forall i :: 0 <= i < |batch| ==> ops[i] == Add(batch[i])
  {
    seq(|batch|, i requires 0 <= i < |batch| => Add(batch[i]))
  }

  ghost predicate Joined(nodes: map<Name, Node>, batch: seq<Joining>, after: map<Name, Node>) {
    && after.Keys == nodes.Keys + BatchNames(batch)
    && (forall j :: j in batch ==> j.name in after && after[j.name] == Node(j.name, j.weight, Live, j.zone))
    && (forall n :: n in nodes && n !in BatchNames(batch) ==> after[n] == nodes[n])
  }

  lemma {:induction false} JoinAllHolds(nodes: map<Name, Node>, batch: seq<Joining>)
    requires DistinctNames(batch)
    ensures Joined(nodes, batch, JoinAll(nodes, batch))
  {
    if batch != [] {
      var earlier, last := batch[..|batch| - 1], batch[|batch| - 1];
      JoinAllHolds(nodes, earlier);
      assert BatchNames(batch) == BatchNames(earlier) + {last.name};
      assert forall j :: j in earlier ==> j.name != last.name;
    }
  }

  lemma JoinedUnique(nodes: map<Name, Node>, s: seq<Joining>, t: seq<Joining>, a: map<Name, Node>, b: map<Name, Node>)
    requires Joined(nodes, s, a) && Joined(nodes, t, b)
    requires forall j :: j in s <==> j in t
    ensures a == b
  {
  }

  ghost predicate DistinctNames(s: seq<Joining>) {
    forall i, j :: 0 <= i < j < |s| ==> s[i].name != s[j].name
  }

  lemma DistinctNamesPermute(s: seq<Joining>, t: seq<Joining>)
    requires multiset(s) == multiset(t) && DistinctNames(s)
    ensures DistinctNames(t)
    ensures forall x :: x in s <==> x in t
  {
    assert forall x :: x in s <==> x in multiset(s);
    forall i, j | 0 <= i < j < |t| ensures t[i].name != t[j].name {
      if t[i].name == t[j].name {
        SameNameSame(s, t[i], t[j]);
        CountOnce(s, t[i]);
        CountTwice(t, i, j);
        assert false;
      }
    }
  }

  lemma SameNameSame(s: seq<Joining>, x: Joining, y: Joining)
    requires DistinctNames(s) && x in s && y in s && x.name == y.name
    ensures x == y
  {
  }

  /** A batch ends where its nodes joining one at a time do, in whatever order. */
  lemma BatchIsSingles(nodes: map<Name, Node>, batch: seq<Joining>, order: seq<Joining>)
    requires CheckBatch(nodes, batch).Ok? && multiset(order) == multiset(batch)
    ensures Run(nodes, Singles(order)) == Apply(nodes, AddAll(batch))
  {
    BatchTaken(nodes, batch);
    DistinctNamesPermute(batch, order);
    JoinAllHolds(nodes, batch);
    JoinAllHolds(nodes, order);
    SinglesJoin(nodes, order);
    JoinedUnique(nodes, batch, order, JoinAll(nodes, batch), JoinAll(nodes, order));
  }

  lemma {:induction false} SinglesJoin(nodes: map<Name, Node>, order: seq<Joining>)
    requires forall i :: 0 <= i < |order| ==> CheckJoining(nodes, order[i]).Ok?
    requires DistinctNames(order)
    ensures Run(nodes, Singles(order)) == JoinAll(nodes, order)
  {
    if order != [] {
      var m := |order| - 1;
      SinglesJoin(nodes, order[..m]);
      SingleTaken(nodes, order);
      RunStep(nodes, Singles(order), m);
      assert Singles(order)[..m] == Singles(order[..m]) && Singles(order)[..m + 1] == Singles(order);
    }
  }

  lemma SingleTaken(nodes: map<Name, Node>, order: seq<Joining>)
    requires order != [] && DistinctNames(order)
    requires CheckJoining(nodes, order[|order| - 1]).Ok?
    ensures CheckJoining(JoinAll(nodes, order[..|order| - 1]), order[|order| - 1]).Ok?
  {
    var earlier, last := order[..|order| - 1], order[|order| - 1];
    JoinAllHolds(nodes, earlier);
    assert last.name !in BatchNames(earlier);
  }
}
