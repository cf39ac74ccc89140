# Verified model of the MatrixCache cluster ring

`CacheClusterTopology` decides which node of a cluster holds a key. It is a weighted consistent-hash
ring: the membership is the truth, and the member table, the liveness, the failure domains, the
sorted ring and a lookup table over the leading bits of a hash are all derived from it. Beside it
stand a planner that says which stretches of the hash space change hands between two memberships,
the bytes a key is routed by, and MurmurHash2-64A.

The project models that module in Dafny and proves what it promises. `dafny verify dfyconfig.toml`
checks all of it.

## How the model is laid out

| file | what it holds |
|---|---|
| `Words.dfy`, `Names.dfy` | machine words with their wrap-around, names in byte order, `BTreeMap` key order |
| `Labels.dfy`, `Murmur.dfy`, `RoutingBytes.dfy` | ring point labels, the hash, the bytes of a key |
| `Clusters.dfy` | the membership, its points, and when a sequence of points is its ring |
| `RingIndex.dfy` | the lookup table and the plain search it replaces |
| `Placement.dfy`, `Replicas.dfy` | owner and copies, defined on the membership without a ring |
| `Rings.dfy`, `MemberTable.dfy` | renumber, merge, retain; domain numbering and live counts |
| `Lookups.dfy` | slot scan, stepping over what is down, the walk for copies with its early exit |
| `HashRanges.dfy`, `Boundaries.dfy`, `Moves.dfy`, `Handoffs.dfy`, `HandoffWalk.dfy` | the handoff planner |
| `Views.dfy`, `Operations.dfy`, `Topology.dfy` | the derived state, the operations, the class |
| `Stability.dfy`, `Guarantees.dfy` | what changes may disturb; runs, round trips, failures, plans |
| `LongRings.dfy` | a topology with 2^32 points, and a lookup on it that goes wrong |
| `KnownHashes.dfy` | the hash as plain arithmetic, and values of it written down with the source |

The class `Topologies.Topology` has the source's fields and methods. Its invariant `Valid()` says
that every derived field is what a full rebuild from the current membership gives. Placement has a
second definition that mentions no ring at all: the owner of a hash is the live node with the point
nearest clockwise modulo 2^64, ties going to the lesser name. The lookups are proved equal to it, and
every stability result is proved of it.

The hash the ring is built from is a parameter of the model, an arbitrary function into 0..2^64, so
the ring results hold for every hash, with colliding points included. `Topology.New` instantiates it
with MurmurHash2-64A under the source's seed.

## Where the code and its documentation differ

- The comment on `CacheNodeState` says a node that is `Down` holds no ring points. The code keeps the
  points and steps over them. The model keeps them; `Stability.DownIsAbsent` proves that no lookup
  can tell the difference.
- The comment on `cache_key_routing_bytes` says that no two keys have the same bytes. The lengths
  are cast to 32 bits, so this holds among keys whose namespace and record key are shorter than 4 GiB.
  A longer key has the bytes of exactly one such key, `RoutingBytes.Reading`, which is given in terms
  of its fields. As byte strings the two always collide; among keys of a kind, such as those whose
  fields are valid UTF-8, they do exactly when the reading is of that kind
  (`RoutingBytes.OversizedKeysCollide`). `LongNamespaceCollides` gives two keys of ASCII text that do.
- The comment on `first_point_at_or_after` says that the slot scan finds the nearest point. The
  table entries are cast to 32 bits, so this holds on every ring of fewer than 2^32 points. On a
  longer ring it holds exactly for the hashes `RingIndex.Findable` describes
  (`RingIndex.ScanFinds`). `LongRings.Misroute` builds a topology of two nodes and 2^32 points, on a hash of its own, by two
  accepted joins and looks up a hash whose owner is one node: the answer is the other.
- A new topology has no lookup table, and nothing but an operation that takes in or lets go a member
  or accepts a batch, an empty one included, gives it one. Whether there is a table is the only trace
  a history can leave; `Guarantees.RunAll` states exactly when there is one and
  `Guarantees.HistoryForgotten` that nothing else can differ.

## Assumptions

- Member numbers are cast to `u32`, and the model writes the casts out. With more than 2^32 members
  they no longer identify one, and the contracts then promise the membership but not the ring. The
  increments that renumber the points of a ring are not cut; they reach 2^32 only past that count.
- Names, zones and keys are byte strings, valid UTF-8 or not.
- `sort_unstable_by` is modelled by an insertion sort.

## Model

| member | source | states |
|---|---|---|
| Topologies.Topology.WithPointsPerWeight | src/core/cluster.rs:177-190 | a new topology has no members and no table, and zero points per weight is raised to one |
| Topologies.Topology.New | src/core/cluster.rs:161-170 | the default topology routes by the routing hash with 160 points per weight |
| Operations.CheckJoining | src/core/cluster.rs:210-223 | a node may join exactly when it has a name, a weight, a name not taken and no empty zone; an empty zone is refused last, by an error of its own |
| Operations.CheckNewNode | src/core/cluster.rs:289-307 | the check passes exactly for a non-empty new name with a positive weight, and each refusal has its own error, the first that applies in that order |
| Operations.BatchTaken | src/core/cluster.rs:238-251 | a batch is accepted exactly when every entry could join alone and no name is used twice |
| Operations.FirstComplaint | src/core/cluster.rs:238-251 | a refused batch is refused for its first entry that cannot join or repeats a name, by the error of that entry |
| Operations.BatchIsSingles | src/core/cluster.rs:238-257 | a batch leaves the membership that adding its nodes one at a time in any order leaves |
| Topologies.Topology.AddNode | src/core/cluster.rs:198-203 | on an error nothing changes; otherwise the node joins and, while a u32 can number the members, the whole state is that of a rebuild |
| Topologies.Topology.AddNodeInZone | src/core/cluster.rs:210-227 | the same for a node in a zone, an empty zone name being refused |
| Topologies.Topology.AddBatch | src/core/cluster.rs:263-287 | all or nothing: the first complaint in order is returned with nothing changed, or every node joins and, while a u32 can number the members, the state is that of a rebuild |
| Topologies.Topology.AddNodes | src/core/cluster.rs:238-257 | accepted exactly when every listed name is non-empty, new and used once, with a positive weight; then every listed node is a live member of its weight in no zone, nobody else is new and nobody else changes |
| Topologies.Topology.AddNodesInZones | src/core/cluster.rs:263-287 | the same for nodes in zones, each zone non-empty and each node in the zone listed with it |
| Topologies.Topology.RemoveNode | src/core/cluster.rs:322-330 | reports whether the node was a member, removes exactly it, and leaves the state of a rebuild where a u32 numbered the members |
| Topologies.Topology.SetNodeState | src/core/cluster.rs:333-344 | changes only the state of that member, keeps the state canonical and does not touch ring, table, names or domains |
| Topologies.Topology.RebuildRing | src/core/cluster.rs:559-607 | from any state, gives the ring, table, domains and counts of a membership a u32 can number |
| Topologies.Topology.RefreshLive | src/core/cluster.rs:613-630 | live flags and the number of live nodes are those of the membership, and so is the number of live failure domains where the domains have their numbers |
| Topologies.Topology.AdmitOneMember | src/core/cluster.rs:644-696 | renumbering, sorting the newcomer's points and merging gives exactly what a rebuild would, up to 2^32 members |
| Topologies.Topology.RetireOneMember | src/core/cluster.rs:699-710 | dropping one member's points and renumbering gives exactly what a rebuild would, from up to 2^32 members |
| Rings.AdmittedIsRing | src/core/cluster.rs:648-692 | the renumbered ring merged with the newcomer's points is the ring of the larger membership |
| Rings.RetiredIsRing | src/core/cluster.rs:700-706 | the filtered and renumbered ring is the ring of the smaller membership |
| Rings.MergeRuns | src/core/cluster.rs:673-691 | the merge of two sorted runs is sorted and holds exactly their points |
| Rings.FullRing | src/core/cluster.rs:582-604 | every point of every member, sorted by hash and then member, up to 2^32 members |
| Clusters.RingUnique | src/core/cluster.rs:598-603 | a membership has one ring, even when points of different nodes collide |
| Clusters.RingHolds | src/core/cluster.rs:587-596 | a point is on the ring exactly when some label of some member hashes to it |
| Clusters.RingLength | src/core/cluster.rs:583-597 | the ring has as many points as the products of density and weight, each cut at 2^32-1, add up to, and at least one per member |
| Rings.MemberPoints | src/core/cluster.rs:585-597 | each member has exactly the product of density and weight points on the ring, cut at 2^32-1 |
| Clusters.RingIsLabels | src/core/cluster.rs:586-596 | a hash is on the ring for a member exactly when one of its labels, numbered from 0 up to that product, hashes to it |
| Clusters.RingInOrder | src/core/cluster.rs:601-603 | points are ordered by hash and, on one hash, by member |
| Labels.LabelInjective | src/core/cluster.rs:588-591 | labels are equal exactly when name and point number are, whatever the name contains |
| Labels.LabelText | src/core/cluster.rs:588-591 | a label is the name, the byte 35 and the decimal text of the number |
| Labels.DecimalText | src/core/cluster.rs:591-591 | that text is digits only and has no leading zero |
| Labels.DecimalReadsBack | src/core/cluster.rs:591-591 | it reads back as the number |
| MemberTable.BuildMemberTable | src/core/cluster.rs:717-737 | names in order and, up to 2^32 members, each domain numbered by how many domains come before its first member, with the counter cut to 32 bits |
| MemberTable.SameNumberSameZone | src/core/cluster.rs:564-581 | two members share a domain number exactly when they share a named zone or are one member |
| MemberTable.NumbersInOrder | src/core/cluster.rs:564-581 | domains are numbered from 0 without gaps in the order their first members come |
| MemberTable.FailureDomainsCounted | src/core/cluster.rs:363-370 | failure domains are the zones of live zoned nodes plus the live nodes without a zone |
| Views.MembershipDetermines | src/core/cluster.rs:119-159 | two canonical states of one membership are equal, table included unless one has never had a ring |
| Guarantees.RunAll | src/core/cluster.rs:192-344 | every run of add, batch add, remove and set-state, followed to its end or to the first membership a u32 cannot number, ends in the membership the run describes with the state a rebuild would give, but for the table, which is there exactly when there was one or a step built one |
| Guarantees.TableMeansRebuilt | src/core/cluster.rs:743-759 | a state a run keeps is that of a rebuild exactly when it has a table |
| Guarantees.HistoryForgotten | src/core/cluster.rs:111-115 | topologies with the same membership differ at most in one having a table and the other none, and not even in that when there are members |
| Guarantees.DownThenUp | src/core/cluster.rs:60-63 | going down and coming back restores the whole state |
| Guarantees.JoinThenLeave | src/core/cluster.rs:644-710 | joining and leaving restores everything, the table too exactly when there was one before, while a u32 can number the members |
| RingIndex.IndexBits | src/core/cluster.rs:49-53 | the fewest bits, between 4 and 16, that give more slots than one for every four points, counting up |
| RingIndex.SlotsEven | src/core/cluster.rs:743-752 | the slots cut the hash space into equal parts |
| RingIndex.BuildTable | src/core/cluster.rs:743-759 | entry s is the low 32 bits of the first point at or above the start of slot s, and one more entry is those of the ring's length |
| Lookups.ScanSlot | src/core/cluster.rs:550-556 | the slot scan stops where the cut entries make it, which on a ring of fewer than 2^32 points is the first of all points at or above the hash, or the ring's length |
| RingIndex.ScanFinds | src/core/cluster.rs:546-557 | on a ring of any length, the scan leads to the right point exactly for the findable hashes |
| RingIndex.ShortRingFinds | src/core/cluster.rs:539-545 | with fewer than 2^32 points every hash is findable |
| LongRings.LongIsRing | src/core/cluster.rs:582-604 | the ring of a node with 2^32-1 points and a node with one has 2^32 points, with the hashes 0, 1, 2 and so on |
| LongRings.LongRingLoses | src/core/cluster.rs:753-757 | on that ring no hash from 1 to the last point is findable, and every scan for one stops at 0 |
| LongRings.LongRingMisroutes | src/core/cluster.rs:546-557 | the owner of its last point is the second node, and a lookup from where the scan stops answers the first |
| LongRings.Misroute | src/core/cluster.rs:465-469 | a new topology, two accepted joins and a lookup give that wrong answer |
| Topologies.Topology.FirstPointAtOrAfter | src/core/cluster.rs:546-557 | nothing exactly on an empty ring, otherwise the ring index where the scan stops, which is the least at or above the hash, or 0, exactly when the hash is findable |
| Topologies.Topology.FirstLivePointFrom | src/core/cluster.rs:389-401 | the first live point met within one turn, or nothing |
| Topologies.Topology.OwnerOfRouteHash | src/core/cluster.rs:465-469 | for a findable hash the owner in the membership, and for any hash a serving node exactly when there is one |
| Lookups.OwnerFromServes | src/core/cluster.rs:389-401 | from any ring point a lookup ends at a serving node exactly when there is one |
| Placement.OwnerIsNearest | src/core/cluster.rs:460-473 | the owner is the live node with the nearest point clockwise, ties to the lesser name, and exists exactly when some node is live |
| Placement.OwnerIsNearestLabel | src/core/cluster.rs:460-473 | the same spelled out: the owner is the live node with a label whose hash is the fewest steps up from the hash, modulo 2^64, of all labels of all live nodes, the lesser name winning a shared hash |
| Placement.FullWalk | src/core/cluster.rs:495-503 | one turn of the ring from the successor of a hash meets every live node exactly once, in order of nearest point |
| Placement.TurnMeetsAll | src/core/cluster.rs:495-503 | one turn from any point meets every live node exactly once |
| Topologies.Topology.OwnersOfHash | src/core/cluster.rs:475-537 | for a findable hash what the full walk would return, cut at the number asked for, and for any hash distinct serving nodes, as many as asked for or as there are, in as many domains as possible |
| Lookups.EarlyExit | src/core/cluster.rs:514-525 | stopping with enough nodes and no domain left, or with enough owners, does not change the answer |
| Lookups.PlaceCopies | src/core/cluster.rs:489-536 | from the successor of a hash its holders: the first live node of each new domain in ring order, then the crowded ones, cut at the wanted number; from any point as good a placement |
| Replicas.SpreadPlacesWell | src/core/cluster.rs:489-536 | in whatever order the live nodes are met, taking the first of each domain and then the rest gives distinct live nodes, as many as asked for or as there are, in as many domains as possible |
| Replicas.OwnersMeanWhatTheySay | src/core/cluster.rs:426-443 | the holders of a hash are so placed, the owner first |
| Replicas.HoldersPreferred | src/core/cluster.rs:489-536 | holders come in order of preference and before all other live nodes: the first met of each domain, then the rest, each in the order met |
| Replicas.MoreCopiesExtend | src/core/cluster.rs:432-440 | asking for more copies only extends the answer |
| Topologies.Topology.OwnerOfKey | src/core/cluster.rs:422-424 | the owner of the hash of the key's routing bytes when that is findable, and in any case a serving node exactly when there is one |
| Topologies.Topology.OwnersOfKey | src/core/cluster.rs:441-443 | the holders of the hash of the key's routing bytes when that is findable, and in any case nodes as well placed |
| Stability.ReplicasStable | src/core/cluster.rs:475-537 | when a node stops serving, every other holder still holds, at most one node joins the holders, and nothing changes if it held no copy |
| Stability.DownIsAbsent | src/core/cluster.rs:382-401 | owner and holders are those of the membership without its Down nodes |
| Stability.RemovalLoses | src/core/cluster.rs:322-330 | removing a node is such a stop: the others serve on with their weights and zones |
| Stability.DownLoses | src/core/cluster.rs:333-344 | so is marking it Down |
| Stability.JoinGains | src/core/cluster.rs:210-227 | an accepted join is such a stop backwards |
| Stability.LossMovesOnlyItsOwn | src/core/cluster.rs:60-63 | losing a node changes the owner of exactly the hashes it held |
| Stability.JoinMovesOnlyToNewcomer | src/core/cluster.rs:14-16 | after a join each hash has its old owner or the newcomer |
| Guarantees.SurvivorsKeepCopies | src/core/cluster.rs:428-430 | however many nodes fail together, the surviving holders of a hash still hold it |
| Guarantees.RemovalsLoseAll | src/core/cluster.rs:322-330 | taking any set of nodes out is such a failure |
| Guarantees.NewHoldersReplace | src/core/cluster.rs:475-537 | when many nodes fail together, no more nodes join the holders of a hash than holders failed |
| Guarantees.DomainHoldsOneCopy | src/core/cluster.rs:78-80 | while copies do not outnumber domains, no domain holds two copies of a hash |
| Guarantees.ZoneFailureCostsOneCopy | src/core/cluster.rs:428-437 | for any number of copies, when nodes of one domain fail a hash keeps all but one of its holders, or all but one of as many as there were domains |
| Guarantees.SomeCopySurvives | src/core/cluster.rs:428-430 | with two copies and two live domains a failing domain never takes every holder |
| HashRanges.CountIsSize | src/core/cluster.rs:772-793 | the count of a stretch is the number of hashes it contains, wrapping and whole-space stretches included |
| HashRanges.ContainsIsArc | src/core/cluster.rs:772-780 | a hash is in a stretch exactly when it is met no later than its end, going up from its start modulo 2^64 |
| Boundaries.MergeBounds | src/core/cluster.rs:843-866 | exactly the hashes of both rings, increasing and once each |
| Boundaries.StretchesPartition | src/core/cluster.rs:868-885 | every hash lies in exactly one stretch, also when a single boundary wraps onto itself |
| Boundaries.StretchSuccessor | src/core/cluster.rs:821-825 | within a stretch every lookup starts at the same ring point |
| Topologies.Topology.ClassifyStretches | src/core/cluster.rs:875-906 | the stretches kept carry exactly the hashes whose owner changes, with their owners before and after |
| Moves.JoinNeighbours | src/core/cluster.rs:911-923 | joining loses and adds no hash and leaves no two neighbours of a pair touching |
| Moves.JoinWrap | src/core/cluster.rs:924-942 | after the wrap join no two moves overlap and no two of a pair touch anywhere on the circle |
| Handoffs.GroupByPair | src/core/cluster.rs:944-958 | one handoff for each pair, holding that pair's stretches in order, with the total conserved |
| Handoffs.HandoffCounts | src/core/cluster.rs:811-816 | the count of one handoff of a plan is the number of hashes whose owner changes from its sender to its receiver |
| Topologies.Topology.HandoffsTo | src/core/cluster.rs:834-959 | a hash is in the handoff from a to b exactly when its owner changes from a to b; each pair once, stretches apart, counts adding up to the hashes that move |
| Guarantees.HashClaimedOnce | src/core/cluster.rs:806-809 | no hash is in two stretches of a plan |
| Guarantees.RunsUnbroken | src/core/cluster.rs:826-829 | two neighbouring hashes that move between the same nodes are in one stretch, also across 0 |
| Guarantees.JoinPlanFeedsNewcomer | src/core/cluster.rs:818-834 | every handoff planned for a join goes to the newcomer |
| Guarantees.JoinPlanIsTheShare | src/core/cluster.rs:818-834 | what a join moves is exactly what the newcomer then owns, so its plan counts that share |
| Guarantees.LeavePlanDrainsLeaver | src/core/cluster.rs:818-834 | every handoff planned for a departure or a failure comes from the node that goes |
| Guarantees.ReversePlan | src/core/cluster.rs:834-959 | the plan back moves the same hashes the other way and as many |
| Guarantees.EmptyPlanMeansNoMove | src/core/cluster.rs:831-834 | a plan is empty exactly when no hash changes hands |
| Guarantees.IdleChangeMovesNothing | src/core/cluster.rs:831-834 | a change among nodes that are not serving has an empty plan |
| RoutingBytes.CacheKeyRoutingBytes | src/core/cluster.rs:977-988 | the buffer is the encoding, and a reader recovers the key from it |
| RoutingBytes.EncodeLayout | src/core/cluster.rs:977-988 | which bytes hold what, from the first length to the selector |
| RoutingBytes.RoundTrip | src/core/cluster.rs:962-988 | decoding gives the key back exactly when both stored lengths fit 32 bits |
| RoutingBytes.KeysNeverShareBytes | src/core/cluster.rs:964-973 | two keys with such lengths have the same bytes exactly when they are equal |
| RoutingBytes.Reading | src/core/cluster.rs:977-988 | for every key, from its fields, the key with such lengths that has its bytes, which is the key itself exactly when its own lengths are such |
| RoutingBytes.OversizedKeysCollide | src/core/cluster.rs:964-988 | among the keys of any kind, one shares its bytes with another with such lengths exactly when its own lengths are not such and its reading is of that kind |
| RoutingBytes.SameBytesSameReading | src/core/cluster.rs:964-988 | two keys of any lengths share their bytes exactly when their readings are equal |
| RoutingBytes.ReadBack | src/core/cluster.rs:977-988 | a key recovered from any bytes encodes to those bytes |
| RoutingBytes.LongNamespaceCollides | src/core/cluster.rs:980-980 | two different keys, one with a 4 GiB namespace, have the same bytes |
| Murmur.MurMurHash2For64A | src/core/cluster.rs:1009-1037 | the loop computes the hash defined block by block |
| KnownHashes.HashIsArithmetic | src/core/cluster.rs:1009-1037 | for every key and seed the hash is what multiplications modulo 2^64, divisions by 2^47 and xor give, with the constants written as numbers |
| KnownHashes.HashOfEmpty | src/tests/mod.rs:5103-5103 | the routing hash of no bytes is 4119650384134384807 |
| KnownHashes.HashOfLabel | src/tests/mod.rs:5104-5104 | the routing hash of the first label of a node cache-0000 is 4738340529805345056 |
| Murmur.SeedsKeepApart | src/core/cluster.rs:1013-1013 | for any key, two seeds give the same hash exactly when they are equal |
| Murmur.MulUndoes | src/core/cluster.rs:1010-1010 | multiplying by the mixing constant modulo 2^64 is undone by multiplying by its inverse |
| Murmur.XorShiftUndoes | src/core/cluster.rs:1018-1018 | x ^ (x >> 47) undoes itself |
| Murmur.DifferingBlockNeverCollides | src/core/cluster.rs:1013-1036 | keys of one length that differ only inside one eight-byte block, or only inside the tail, never share a hash |
| RoutingBytes.DifferingBlockRoutesApart | src/core/cluster.rs:1001-1003 | so do the routing hashes of such keys: equal exactly when the block is |
| Names.LtIsFirst | src/core/cluster.rs:119-125 | names are ordered by the first byte in which they differ, a prefix before what it begins |
| Words.AsU32Wraps | src/core/cluster.rs:980-980 | a cast to 32 bits forgets multiples of 2^32 and nothing else |

## Left out

- Balance of the ring (peak over mean, share of keys moved): statistical claims about the hash.
- `owner_of_bytes`, `owners_of_bytes`, `node`, `nodes`, `member_count` and the other plain readers: one-line projections of modelled state.
- The text of error messages; the kinds of refusal are kept apart.
- Serialization derives, memory layout, and every timing claim in the comments.
- Moving data between nodes: the module only plans it.
- The rest of the crate (tiers, eviction, storage engines, metrics), the benchmark programs and the report scripts.
