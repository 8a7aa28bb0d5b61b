# A verified model of the self-healing distributed cache

This project models, in Dafny 4.11, the parts of the cache whose correctness is not local: the
gossip membership protocol, the consistent-hash ring and the replication on top of it, the RESP2
codec and its streaming reader, the store with lazy expiry, the join of a node with key transfer
and tombstones, and the router's view of the cluster. `dafny verify dfyconfig.toml` checks it.

| file | what it models |
|---|---|
| `Membership.dfy` | the membership table and `merge` |
| `Gossip.dfy` | one gossip exchange and one detector pass over mutable tables |
| `Cluster.dfy` | a cluster of any size as a state machine; invariants of every run |
| `Convergence.dfy`, `HubConvergence.dfy` | two nodes, then the whole cluster, come to agree |
| `Partition.dfy` | when two groups of nodes lose each other for good |
| `Detector.dfy` | when a silent peer is suspected and declared dead |
| `HashRing.dfy` | the ring, clockwise lists, minimal disruption |
| `Health.dfy`, `RouterView.dfy` | the router's health monitor and ring as a function of history |
| `Coordinator.dfy`, `RouterDurability.dfy` | replica selection, read, write and delete loops, durability of writes |
| `Text.dfy`, `Unicode.dfy` | decimal integers and UTF-8, the latter against its definition |
| `RespCodec.dfy`, `RespWire.dfy`, `RespCanonical.dfy`, `RespConnection.dfy` | the RESP2 parser and encoder, the wire format in bytes, which accepted bytes are encodings, the connection loop |
| `CacheStore.dfy`, `CacheHistory.dfy` | the store, expiry and the sweeper; what a history of operations lets a reader see |
| `Rebalance.dfy`, `NodeService.dfy` | key transfer, the gRPC handlers and the rebalancer |
| `JoinProtocol.dfy` | a join interleaved with gossip, deletes, expiry and the purge |
| `JoinDurability.dfy` | what a read returns after a node has joined |
| `Refinement.dfy` | the operations on real tables and stores are the actions of the state machines |

## How to read it

Code that changes state is a class or a method with loops (`MembershipTable`, `HashRing`,
`HealthMonitor`, `ReplicationCoordinator`, `Store`, `CacheService`, `Rebalancer`, `Connection`,
`RouterGossipClient`). Each such method is proved equal to a function of the old state, and the
lemmas say what that function means. The protocol theorems are about runs: sequences of states in
which every step is one of the actions the code can take, in any order.

Modelling decisions:

- Instants and durations are natural numbers of nanoseconds. Each operation reads the clock once;
  the reading is a parameter `now`. Incarnations and counters are unbounded naturals.
- The hash is a parameter (`Hashing`), so positions may collide. The ordered position map is a
  sequence of slots in ascending order.
- A message, once sent, may be delivered at any later time, any number of times, or never. A crash
  is a node that stops acting. Every id is started at most once, and seeds are listed under ids
  generated for the purpose, as `crates/node/src/main.rs` does. A node restarted under an old id,
  or real ids given as seeds, are outside the cluster theorems.
- A remote call is an outcome chosen by the environment: no connection, a failed call that may or
  may not have taken effect, or an answer. Nodes stand for their addresses.
- Text inside RESP values is kept as its UTF-8 bytes.

What the proofs found:

- The comment at `crates/node/src/gossip/state.rs:241` says that for equal incarnations the more
  recent `last_seen` wins. The code compares only incarnation and status; the model follows the code.
- A node gossips only with members it records Alive or Joining, at the address it has for them. If no
  table of either of two groups offers such a partner in the other, as after a network split longer
  than the timeouts, and no message under way changes that, the groups never contact each other again
  once the network is back, and exactly then (`Partition.LostForeverIff`). Their tables then never
  agree (`Partition.LostSidesNeverAgree`). A node started from the command line publishes an empty
  address (`crates/node/src/gossip/state.rs:46-53`), so it can only be reached under the ids generated
  for it as a seed; the theorem covers this, since an id may lead nowhere.
- A joining node builds its ring with itself first and its peers after, the router in the order it
  hears of them. If virtual nodes collide, a key can belong to the node in the router's ring and still
  not be pulled (`Rebalance.CollisionLosesAKey`); `Rebalance.PulledIffRoutedAndUncontested` gives the
  exact condition.
- `Set` succeeds when the first node acknowledges. What it leaves survives all failures of other nodes
  if and only if no listed node that missed the write and held another value precedes one that has the
  new value (`Coordinator.WriteIsDurableIff`); when the whole list acknowledged, that is so.
- An acknowledged write need not survive a join: the new owner keeps the copy of the peer that streamed
  last, and a read may return an old one (`JoinDurability.JoinMayServeOlderValue`).
  `JoinDurability.ReadAfterJoin` says exactly what is read, and `JoinDurability.AckedWriteSurvivesJoinIff`
  when it is the acknowledged value.
- A confirmed delete need not survive failures: a newcomer to the preference list may still hold an
  old value (`Coordinator.ConfirmedDeleteMayReturn`). It holds through all of them if and only if no
  usable node outside the list held a copy (`Coordinator.ConfirmedDeleteHoldsForeverIff`).
- `expire`, `ttl` and the boolean of `delete` see keys that are expired but not yet removed, so a
  sweep shows through them (`CacheStore.SweepShowsThroughExpire`). As long as no `expire` hits such a
  key, every other answer is that of the ideal map (`CacheStore.ExpiryShowsOnlyAtStaleKeys`); the
  schedule of the sweeps cannot be seen at all if and only if none of the three hits such a key
  (`CacheStore.SweepsAreInvisibleIff`).
- A heartbeat, failed or successful, makes a node the router had marked Joining usable
  (`RouterView.HeartbeatRevivesJoining`). This matters only for nodes in the router's ring.
- While a node joins, a key whose delete has returned may be in its store again; the purge removes
  it (`JoinProtocol.TransferCanBringBack`, `JoinProtocol.NoResurrection`).
- After a protocol error the connection drops its buffer, so the way the stream is cut into reads can
  show (`RespConnection.ChunkingShowsAfterError`). It does not show if and only if every strict prefix
  of the stream is free of errors (`RespConnection.ChunkingIsInvisibleIff`).
- The parser accepts more than the encoder writes (`RespCodec.NonCanonicalIsAccepted`); accepted bytes
  are an encoding if and only if they are canonical (`RespCanonical.CanonicalIff`), and a whole stream
  can be rebuilt from what was handled exactly when it is (`RespCanonical.StreamIsRebuiltIff`).
- Removing a node undoes adding it only if none of its virtual nodes took over a position
  (`HashRing.AddThenRemove`).

## Model

| member | source | states |
|---|---|---|
| `Membership.MergeIsJoin` | crates/node/src/gossip/state.rs:265-325 | for every other node the merged record is the least upper bound, in the order (incarnation, Joining < Alive < Suspect < Dead), of the old record and all reports, and one of them said it; nodes present are exactly the known and the reported ones |
| `Membership.MergeTies` | crates/node/src/gossip/state.rs:265-325 | one report: a greater incarnation is taken over, a smaller one ignored; at equal ones Dead beats all, Suspect beats Alive and Joining, Alive beats Joining |
| `Membership.MergeRefutes` | crates/node/src/gossip/state.rs:246-263 | the own incarnation becomes the maximum of its own and every Suspect or Dead report plus one; it turns Alive exactly when such a report was not already beaten; address and last-seen stay |
| `Membership.MergeKeepsOrTakesOver` | crates/node/src/gossip/state.rs:265-325 | an entry whose record is unchanged keeps address and last-seen; otherwise it is some report taken over whole, seen now |
| `Membership.MergeDependsOnFacts` | crates/node/src/gossip/state.rs:243-327 | order, repetition, addresses and clock readings of the reports do not affect the resulting statuses and incarnations |
| `Membership.MergeGrouping` | crates/node/src/gossip/state.rs:243-327 | a series of messages acts like one message with all their reports |
| `Membership.MergeIsOrderIndependent` | crates/node/src/gossip/state.rs:243-327 | any two series of messages carrying the same facts lead to the same view |
| `Membership.MergeListing` | crates/node/src/gossip/state.rs:243-327 | merging any listing of a table is the pointwise join of the two views |
| `Membership.InitialTable` | crates/node/src/gossip/state.rs:39-84 | a new table holds the seeds Alive at 0 and itself Joining at 0, or Alive at 0 without seeds |
| `Membership.MembershipTable.constructor` | crates/node/src/gossip/state.rs:39-84 | each seed is stored under its own address, Alive at 0, seen now (the last seed of an id decides); the node itself is Joining, or Alive without seeds, at the address of the first seed that names it, else the empty one |
| `Membership.MembershipTable.MarkSuspect` | crates/node/src/gossip/state.rs:116-129 | only an Alive entry turns Suspect; a Joining one does not change |
| `Membership.MembershipTable.MarkDead` | crates/node/src/gossip/state.rs:132-146 | only Alive and Suspect entries turn Dead |
| `Membership.MembershipTable.Touch` | crates/node/src/gossip/state.rs:168-173 | a known id is seen now; nothing else in the table changes |
| `Membership.MembershipTable.MarkSelfAlive` | crates/node/src/gossip/state.rs:218-229 | raises the own incarnation by one and turns the own entry Alive |
| `Membership.MembershipTable.Merge` | crates/node/src/gossip/state.rs:243-327 | the loop computes the merge, which for a listing of a table is the view-level join |
| `Membership.MembershipTable.AllMembers` | crates/node/src/gossip/protocol.rs:159-181 | the message lists every entry once with its address and record |
| `Membership.MembershipTable.AlivePeers` | crates/node/src/gossip/state.rs:86-97 | exactly the other members recorded Alive or Joining, each once |
| `Membership.MembershipTable.RoutablePeers` | crates/node/src/gossip/state.rs:100-107 | exactly the other members recorded Alive, each once |
| `Gossip.CheckTimeouts` | crates/node/src/gossip/protocol.rs:63-111 | one detector pass applies the timeout rule to every other entry, and to views it is a detector step of the cluster model |
| `Gossip.GossipExchange` | crates/node/src/gossip/server.rs:22-59 | the server merges any request, a sender it knows by then is seen now, and the answer lists the whole resulting table; a request that lists a table acts as the view-level join |
| `Gossip.AcceptReply` | crates/node/src/gossip/protocol.rs:119-141 | the peer that answered is seen now, whatever its reply says, and the reply is merged |
| `Gossip.GossipRound` | crates/node/src/gossip/protocol.rs:47-59 | a whole exchange joins the request into one table and the answer into the other, and each side has then seen the other now |
| `Gossip.HeardFromIsSafe` | crates/node/src/gossip/protocol.rs:63-111 | after an exchange from a peer at t no detector pass up to t+3s changes its entry, and none up to t+5s if it is Suspect |
| `Cluster.StepKeepsInv` | crates/node/src/gossip/state.rs:116-327 | every action of any node keeps the cluster invariant |
| `Cluster.RunInvariant` | crates/node/src/gossip/state.rs:116-327 | the invariant holds in every state of every run |
| `Cluster.JoiningEndsOnlyByFinishing` | crates/node/src/gossip/state.rs:218-263 | until a node started with seeds runs mark_self_alive, every record of it in any table or message is (Joining, 0); its own record is Joining exactly until then |
| `Cluster.IncarnationOwnership` | crates/node/src/gossip/state.rs:243-327 | in every reachable state nobody holds an incarnation of a started node above its own, and it never calls itself Suspect or Dead |
| `Cluster.RefutationIsNewest` | crates/node/src/gossip/state.rs:246-263 | a raised incarnation is strictly newer than everything said about the node before, and everything said after is older or is that record |
| `Cluster.ViewsAreMonotone` | crates/node/src/gossip/state.rs:116-327 | over whole runs a node's record of any id never decreases |
| `Cluster.IncarnationsComeFromTheirOwner` | crates/node/src/gossip/state.rs:218-263 | a positive incarnation of a started node said anywhere was once that node's own (Alive, k) |
| `Cluster.DeadLeavesOnlyByItsOwnClaim` | crates/node/src/gossip/state.rs:265-325 | a peer recorded Dead leaves Dead only at a greater incarnation, which a started peer claimed itself |
| `Convergence.OneExchange` | crates/node/src/gossip/server.rs:22-59 | after one exchange from any reachable state the two agree on every id, except on the initiator exactly when it had to refute |
| `Convergence.TwoExchangesConverge` | crates/node/src/gossip/server.rs:22-59 | after a second exchange in either direction they agree on every id |
| `Convergence.AgreementIsStable` | crates/node/src/gossip/protocol.rs:119-141 | nodes that agree stay unchanged by further exchanges |
| `HubConvergence.FourRoundsConverge` | crates/node/src/gossip/protocol.rs:36-60 | if one node meets every other node four times over, whoever starts each exchange, all tables of a cluster of any size are equal and every started node stands Alive or Joining in them |
| `HubConvergence.ThreeRoundsConverge` | crates/node/src/gossip/server.rs:22-59 | three rounds are enough if that node starts the exchanges of the second |
| `HubConvergence.TrustingClusterConverges` | crates/node/src/gossip/protocol.rs:36-60 | in a reachable cluster in which no started node suspects another, every meeting between nodes that have heard of each other is one the code may choose, round after round, and four rounds converge |
| `Partition.SeveredIsPermanent` | crates/node/src/gossip/state.rs:86-97 | if no table on either side of a division of the nodes offers a partner on the other side and no letter under way would make one do so, no run of requests, late deliveries, detector passes and finished joins ever changes that |
| `Partition.LostForeverIff` | crates/node/src/gossip/protocol.rs:36-60 | provided no letter is under way between two groups, and that an own id leads to its node or nowhere, the groups never contact each other again in any run if and only if no table offers a partner across and no letter under way would make one do so |
| `Partition.LostSidesNeverAgree` | crates/node/src/gossip/protocol.rs:36-60 | then, from any reachable cluster, two nodes of different sides never have equal tables if one of them published its address |
| `Partition.ContactIsExchange` | crates/node/src/gossip/protocol.rs:47-59 | a contact is three moves, request, answer and reply, that together are one gossip exchange |
| `Detector.SilentStatus` | crates/node/src/gossip/protocol.rs:63-111 | the exact status of a silent peer after any sequence of passes: Suspect from the first pass later than t+3s, Dead from the first later pass after t+5s |
| `Detector.NeverTooEarly` | crates/node/src/gossip/protocol.rs:72-105 | Suspect only after t+3s; Dead only after t+5s and only from Suspect |
| `Detector.DeadInTime` | crates/node/src/gossip/protocol.rs:72-105 | with passes at most P apart it is Dead by t+5s+2P, and by t+5s+P if P is at most 2s |
| `HashRing.RemovalOnlyDeletes` | crates/common/src/hashring.rs:51-54 | removing nodes deletes them from every key's clockwise list and changes nothing else |
| `HashRing.AddingMovesOnlyToNewNode` | crates/common/src/hashring.rs:42-48 | adding a node leaves each key's owner or makes it the new node, with or without collisions |
| `HashRing.AddingOnlyInserts` | crates/common/src/hashring.rs:42-48 | without a collision an absent node is only put into each clockwise list |
| `HashRing.OneReplicaChanges` | crates/common/src/hashring.rs:73-95 | hence at most one replica of each key changes |
| `HashRing.AddThenRemove` | crates/common/src/hashring.rs:42-54 | adding an absent node and removing it restores the ring if and only if there was no collision |
| `HashRing.ClockwiseFacts` | crates/common/src/hashring.rs:57-95 | the clockwise list names every node that holds a slot exactly once and starts at the owner |
| `HashRing.ClockwiseIsInOrder` | crates/common/src/hashring.rs:73-95 | of two nodes in the list the earlier has a slot that is met, walking clockwise from the key, before every slot of the later |
| `HashRing.HashRing.Add` | crates/common/src/hashring.rs:42-48 | the node holds every position one of its virtual nodes hashes to, all others keep their holder, and it is listed last; keeps the ring well formed |
| `HashRing.HashRing.Remove` | crates/common/src/hashring.rs:51-54 | exactly the positions and listings of the node are gone; keeps the ring well formed |
| `HashRing.HashRing.GetNode` | crates/common/src/hashring.rs:57-70 | none exactly on an empty ring, else the head of the clockwise list |
| `HashRing.HashRing.GetPreferenceList` | crates/common/src/hashring.rs:73-95 | the first nodes of the clockwise list, at least one on a non-empty ring |
| `HashRing.CollectDistinct` | crates/common/src/hashring.rs:78-94 | the loop with its seen set collects the first distinct listed nodes of the walk |
| `Health.HealthMonitor.RecordFailure` | crates/router/src/health/mod.rs:85-130 | one failure step of the entry, unknown nodes counting as Alive first |
| `Health.HealthMonitor.IsAlive` | crates/router/src/health/mod.rs:135-141 | true unless the node is recorded Dead or Joining |
| `RouterView.RingIsFunctionOfHistory` | crates/router/src/gossip/mod.rs:82-133 | a node is in the ring iff its last Alive-or-Dead report was Alive, or it had none and was configured |
| `RouterView.AddressIsFunctionOfHistory` | crates/router/src/gossip/mod.rs:98-115 | a node in the ring is listed under its configured address or that of the Alive report that brought it in; later reports do not change it |
| `RouterView.HealthIsFunctionOfHistory` | crates/router/src/health/mod.rs:59-130 | health is the last mark with no failures since, Suspect for 1 to max(2, threshold)-1 failures, Dead from there on |
| `RouterView.UnusableIff` | crates/router/src/health/mod.rs:85-141 | a node is unusable iff it was last marked Joining with no failure since, or has max(2, threshold) failures since its last mark |
| `RouterView.DeadReportExcludes` | crates/router/src/gossip/mod.rs:119-131 | a Dead report always removes the node from the ring; it makes it unusable iff its failures so far plus 3 reach max(2, threshold), hence always for a threshold of at most 3 |
| `RouterView.JoiningNodeIsNotRouted` | crates/router/src/gossip/mod.rs:111-115 | in every reachable cluster an unconfigured node still joining is in no preference list of a router told only what nodes sent |
| `RouterView.HeartbeatRevivesJoining` | crates/router/src/health/mod.rs:104-111 | one heartbeat, failed or successful, makes a node last marked Joining usable again, whatever the threshold |
| `RouterView.UsableLines` | crates/router/src/gossip/mod.rs:82-91 | every line whose id and status parse is an event, whatever the status; other lines are skipped |
| `RouterView.RouterGossipClient.ProcessReply` | crates/router/src/gossip/mod.rs:82-135 | processing a reply extends the history by its usable lines; afterwards a node is in the ring iff the last Alive or Dead line about it says Alive, and as before if there is none |
| `RouterView.RouterGossipClient.ProcessMember` | crates/router/src/gossip/mod.rs:93-132 | one line is one step of the history |
| `Coordinator.SkippingIsPrefixOfRemoving` | crates/router/src/replication/coordinator.rs:34-54 | skipping dead candidates picks a prefix of what the ring without the dead nodes picks |
| `Coordinator.SkippingEqualsRemoving` | crates/router/src/replication/coordinator.rs:34-54 | the two agree iff at most two candidates are not alive or no alive node lies beyond the candidates |
| `Coordinator.FactorZero` | crates/router/src/replication/coordinator.rs:34-54 | a replication factor of 0 still tries the owner of the key, if it is alive |
| `Coordinator.SurvivorInNewList` | crates/router/src/replication/coordinator.rs:34-54 | after removals and failures a surviving written node is still listed, and only nodes that preceded it before precede it |
| `Coordinator.AcksIff` | crates/router/src/replication/coordinator.rs:72-108 | a node counts as written iff its first reply among the attempts is a success |
| `Coordinator.AppliesIff` | crates/router/src/replication/coordinator.rs:72-108 | a value is left at a node iff one of its attempts, up to its first reply, takes effect |
| `Coordinator.WriteAllFacts` | crates/router/src/replication/coordinator.rs:69-109 | a write leaves its value at the listed nodes where it was applied and everything else unchanged |
| `Coordinator.ReadsFirstServing` | crates/router/src/replication/coordinator.rs:120-176 | a read returns what the first listed node that answers and holds the key holds, and nothing if there is none |
| `Coordinator.AckedWriteSurvivesFailures` | crates/router/src/replication/coordinator.rs:57-176 | a write acknowledged by its whole list is returned by a later read as long as one written node survives, keeps it and answers, although newcomers may hold older values |
| `Coordinator.DurableIff` | crates/router/src/replication/coordinator.rs:120-176 | an item is read through all failures of other nodes, as long as one of its listed holders survives and answers, iff no listed node with another value precedes a holder |
| `Coordinator.WriteIsDurableIff` | crates/router/src/replication/coordinator.rs:57-117 | what a write leaves, whoever acknowledged it, is durable in this sense iff no listed node that missed it and held another value precedes one that has it |
| `RouterDurability.TakingAway` | crates/router/src/gossip/mod.rs:82-133 | after events with no good news about an unusable or unlisted node and no failure of a node marked Joining, the ring has lost exactly the nodes reported Dead, and every other unusable node is still unusable |
| `RouterDurability.AckedWriteSurvivesHistory` | crates/router/src/replication/coordinator.rs:57-176 | after any such series of events a fully acknowledged write is still returned while one written node is usable, holds it and answers |
| `Coordinator.DeleteAllFacts` | crates/router/src/replication/coordinator.rs:189-224 | a delete erases its key at exactly the listed nodes that an effective attempt reached before a failure to connect, and nothing else |
| `Coordinator.DeletedFlagIff` | crates/router/src/replication/coordinator.rs:189-224 | it answers deleted iff some listed node held the key and the first effective attempt there was confirmed |
| `Coordinator.ConfirmedDeleteHoldsForeverIff` | crates/router/src/replication/coordinator.rs:120-225 | a confirmed delete is never read back, whatever nodes are removed or fail later and whoever answers, iff before it no usable node of the ring outside its list held the key |
| `Coordinator.ConfirmedDeleteMayReturn` | crates/router/src/replication/coordinator.rs:120-225 | two nodes, one replica: a deleted key is read back from a newcomer after its owner is removed |
| `Coordinator.ReplicationCoordinator.AlivePreferenceList` | crates/router/src/replication/coordinator.rs:34-54 | the loop returns the alive candidates up to the factor; factor 0 still tries one |
| `Coordinator.ReplicationCoordinator.Set` | crates/router/src/replication/coordinator.rs:57-117 | writes value and time to live to the whole list with retries; succeeds iff the first node acknowledged; fails on an empty list |
| `Coordinator.ReplicationCoordinator.Get` | crates/router/src/replication/coordinator.rs:120-176 | returns what the first answering holder in the list holds, or not found; fails on an empty list |
| `Coordinator.ReplicationCoordinator.Delete` | crates/router/src/replication/coordinator.rs:179-225 | deletes at the whole list, giving up on a node at the first failed connection; answers deleted iff some listed node held the key and told so |
| `Text.PrintRoundTrip` | crates/node/src/resp/encoder.rs:22-29 | printing and parsing any 64-bit integer is the identity |
| `Unicode.Utf8Iff` | crates/node/src/resp/parser.rs:66-89 | the accepted texts are exactly the encodings of sequences of Unicode scalar values (section 3 of RFC 3629) |
| `RespWire.ParsesIff` | crates/node/src/resp/parser.rs:91-104 | a line is a number iff it is an optional sign and at least one digit within 64 bits, with the decimal value |
| `RespWire.PrintsDecimal` | crates/node/src/resp/encoder.rs:22-29 | a printed number is its shortest decimal notation, with a minus sign if negative |
| `RespWire.TextLines` | crates/node/src/resp/parser.rs:66-89 | in bytes: 43 or 45, a line, 13 10 is a simple string or an error, unless the line is not UTF-8 |
| `RespWire.IntegerLines` | crates/node/src/resp/parser.rs:91-104 | in bytes: 58, a number, 13 10; otherwise which error |
| `RespWire.BulkStrings` | crates/node/src/resp/parser.rs:106-143 | in bytes: 36, a length, 13 10, that many bytes, 13 10; negative lengths, missing bytes, a wrong end and wrong lengths |
| `RespWire.Arrays` | crates/node/src/resp/parser.rs:145-183 | in bytes: 42, a count, 13 10, the values; negative counts and wrong counts |
| `RespWire.ItemsInOrder` | crates/node/src/resp/parser.rs:167-182 | an array is complete iff its values are, one after the other |
| `RespWire.ItemsStop` | crates/node/src/resp/parser.rs:167-182 | it is unfinished or wrong iff one of its values is, all before it being complete |
| `RespWire.OtherInput` | crates/node/src/resp/parser.rs:48-64 | without a line end the parser waits; any other first byte is an error |
| `RespWire.EveryInput` | crates/node/src/resp/parser.rs:27-45 | these cases cover every input |
| `RespWire.EncodedBytes` | crates/node/src/resp/encoder.rs:4-65 | the bytes written for every value |
| `RespCodec.FindCrlfLoop` | crates/node/src/resp/parser.rs:27-37 | the loop finds the first CRLF at or after the offset, or none if there is none |
| `RespCodec.ParseResp` | crates/node/src/resp/parser.rs:48-64 | the recursive parser computes the specified result |
| `RespCodec.ParseItemsLoop` | crates/node/src/resp/parser.rs:167-182 | the item loop computes what parsing the items one after another yields |
| `RespCodec.EncodeArray` | crates/node/src/resp/encoder.rs:49-65 | the loop appends the encodings of all items, nested arrays included |
| `RespCodec.RoundTrip` | crates/node/src/resp/parser.rs:48-183 | an encoding followed by any bytes parses to the value and the encoding's length |
| `RespCodec.RoundTripIff` | crates/node/src/resp/encoder.rs:4-65 | this holds for exactly the well-formed values: text without CRLF, 64-bit integers, lengths that fit one |
| `RespCodec.PrefixIsIncomplete` | crates/node/src/resp/parser.rs:48-183 | every strict prefix of an encoding is Incomplete, never an error |
| `RespCodec.EncodingIsPrefixFree` | crates/node/src/resp/encoder.rs:4-65 | no encoding is a proper prefix of another, and encoding is injective |
| `RespCodec.ParseIsStable` | crates/node/src/resp/parser.rs:48-183 | a Complete or error result is unchanged by appending bytes |
| `RespCodec.Parse` | crates/node/src/resp/parser.rs:48-183 | Complete consumes at least 3 and at most all bytes |
| `RespCodec.ParsedIsWellFormed` | crates/node/src/resp/parser.rs:48-183 | whatever is accepted is well formed |
| `RespCodec.ParseNormalises` | crates/node/src/resp/parser.rs:48-183 | every parsed value re-encodes and re-parses to itself |
| `RespCodec.NonCanonicalIsAccepted` | crates/node/src/resp/parser.rs:91-183 | a plus sign, leading zeros and the null array are accepted although never written |
| `RespCanonical.CanonicalIff` | crates/node/src/resp/parser.rs:48-183 | accepted bytes are the encoding of their value iff every number in them is printed as the encoder prints it, a negative bulk length is -1 and no array count is negative |
| `RespCanonical.StreamIsRebuiltIff` | crates/node/src/resp/server.rs:45-79 | a stream without errors equals the encodings of the values handled followed by the bytes left over iff everything handled is canonical |
| `RespConnection.ChunkingIsInvisible` | crates/node/src/resp/server.rs:45-79 | for a stream without protocol errors the handled values and the rest do not depend on how it is cut into reads |
| `RespConnection.ChunkingIsInvisibleIff` | crates/node/src/resp/server.rs:45-79 | all ways to cut a stream into reads are handled like the whole iff no strict prefix of it contains a protocol error |
| `RespConnection.EncodedStreamIsHandled` | crates/node/src/resp/server.rs:45-79 | any cut of the encodings of any well-formed values is handled as exactly those values, with an empty buffer left |
| `RespConnection.TruncatedStreamIsHandled` | crates/node/src/resp/server.rs:45-79 | a stream ending inside a value handles everything before it and keeps the unfinished bytes |
| `RespConnection.ChunkingShowsAfterError` | crates/node/src/resp/server.rs:70-76 | a stream of four bytes whose cut shows after a protocol error |
| `RespConnection.Connection.OnRead` | crates/node/src/resp/server.rs:54-78 | the inner loop drains the buffer |
| `RespConnection.Connection.Serve` | crates/node/src/resp/server.rs:45-79 | the outer loop handles the reads in turn |
| `CacheStore.ExpiryShowsOnlyAtStaleKeys` | crates/node/src/cache/store.rs:44-156 | under a non-decreasing clock and sweeps anywhere, if no expire hits an expired but present key, the store answers like a map whose entries vanish at their expiry instant, except exactly at the deletes and ttls that hit such a key |
| `CacheStore.ExpiryIsInvisibleIff` | crates/node/src/cache/store.rs:44-156 | all answers of a history are those of the ideal map iff no expire, delete or ttl in it hits such a key |
| `CacheStore.SweepsAreInvisibleIff` | crates/node/src/cache/expiry.rs:14-22 | all schedules of sweeps around the same operations are answered alike iff none of those operations hits such a key in the run without sweeps |
| `CacheStore.AnswerAgreesIff` | crates/node/src/cache/store.rs:63-113 | an operation answers like the ideal map iff it is not an expire, delete or ttl of an expired but present key |
| `CacheStore.SweepShowsThroughExpire` | crates/node/src/cache/store.rs:106-113 | expire revives an expired key unless a sweep came first |
| `CacheHistory.AnswersAreFunctionOfHistory` | crates/node/src/cache/store.rs:44-61 | after any history in clock order in which no expire hits an expired but present key, a read returns the value last set, unless it was deleted since or its time has run out |
| `CacheHistory.TransferIsFunctionOfHistory` | crates/node/src/cache/store.rs:123-145 | a transfer carries exactly those keys with the whole milliseconds left |
| `CacheHistory.PhysicalAnswersOfHistory` | crates/node/src/cache/store.rs:63-113 | so do ttl and the booleans of expire and delete, unless the key is expired but present |
| `CacheHistory.SetThenGet` | crates/node/src/cache/store.rs:44-61 | a key set at t with time to live d is read exactly until t+d |
| `CacheStore.Store.GetKey` | crates/node/src/cache/store.rs:50-61 | returns a live value; an expired entry is removed and not returned |
| `CacheStore.Store.ExistsKey` | crates/node/src/cache/store.rs:101-103 | like a read |
| `CacheStore.Store.DeleteKey` | crates/node/src/cache/store.rs:63-65 | removes the key and tells whether it was physically present |
| `CacheStore.Store.ExpireKey` | crates/node/src/cache/store.rs:106-113 | sets a new expiry on a physically present key |
| `CacheStore.Store.Ttl` | crates/node/src/cache/store.rs:85-98 | the remaining time, zero for an expired entry still present |
| `CacheStore.Store.Length` | crates/node/src/cache/store.rs:68-77 | counts the live entries |
| `CacheStore.Store.EntriesForTransfer` | crates/node/src/cache/store.rs:123-145 | streams every live entry once with its remaining whole milliseconds |
| `CacheStore.Store.SetFromTransfer` | crates/node/src/cache/store.rs:149-156 | stores a received entry, skipping a zero remaining time |
| `CacheStore.Store.SweepExpired` | crates/node/src/cache/expiry.rs:14-22 | keeps exactly the live entries |
| `Rebalance.AcceptedIffMoved` | crates/node/src/rebalance/mod.rs:58-72 | a streamed key is accepted iff the joining node changes its owner in the ring it builds, collisions included |
| `Rebalance.PulledIffRoutedAndUncontested` | crates/node/src/rebalance/mod.rs:128-140 | whatever the order in which the router added the nodes, a key is pulled iff the router assigns it to the node by a position no peer contests |
| `Rebalance.CollisionLosesAKey` | crates/node/src/rebalance/mod.rs:58-72 | with a collision a key can move to the node and not be pulled |
| `Rebalance.PullStoresLastLanding` | crates/node/src/rebalance/mod.rs:128-140 | after a transfer a key holds its last accepted chunk; keys without one are untouched |
| `Rebalance.TransferKeepsTtl` | crates/node/src/cache/store.rs:134-156 | the remaining time is reduced by less than 1 ms and never increased; it is skipped iff under 1 ms remained |
| `Rebalance.RebalancePullsExactlyWhatMoves` | crates/node/src/rebalance/mod.rs:148-167 | when all streams are complete, a key is stored iff it moves and some peer held it live for at least 1 ms more; what is stored is the landing of that peer's own chunk, its remaining time reduced by less than 1 ms |
| `NodeService.CacheService.Set` | crates/node/src/grpc/service.rs:37-45 | refused while the own record is Joining, else stored with the time to live in milliseconds from now |
| `NodeService.CacheService.Delete` | crates/node/src/grpc/service.rs:61-77 | while joining it leaves a tombstone, removes the key and is refused; else it removes the key |
| `NodeService.CacheService.TransferKeys` | crates/node/src/grpc/service.rs:98-119 | streams a snapshot of the store |
| `NodeService.Rebalancer.BuildRing` | crates/node/src/rebalance/mod.rs:58-72 | the ring of the node itself and then its peers |
| `NodeService.Rebalancer.PullKeysFrom` | crates/node/src/rebalance/mod.rs:126-143 | stores the streamed keys the ring assigns to the node |
| `NodeService.Rebalancer.PullFromAll` | crates/node/src/rebalance/mod.rs:148-167 | pulls from every other peer; a failed stream keeps what it brought |
| `NodeService.Rebalancer.ApplyTombstones` | crates/node/src/rebalance/mod.rs:83-93 | removes every tombstoned key |
| `NodeService.Rebalancer.WaitAndRebalance` | crates/node/src/rebalance/mod.rs:40-105 | acts iff a routable peer is visible; then the peers are those of a second reading, the store is the transfer from them minus the tombstones, and the node is Alive one incarnation up |
| `NodeService.CompleteStreamsDeliver` | crates/node/src/rebalance/mod.rs:148-167 | when every stream brings a whole snapshot, everything the peers hold live arrives and nothing else |
| `NodeService.JoinStoresExactlyWhatMoves` | crates/node/src/rebalance/mod.rs:58-93 | after a complete join an initially empty store holds a key iff it moves, some peer held it live for at least 1 ms more and it has no tombstone; value and remaining time are those of the chunk that brought it |
| `JoinDurability.JoinedValue` | crates/node/src/rebalance/mod.rs:126-167 | after complete streams the node holds an accepted key with the value of the last peer that had it, and no other key |
| `JoinDurability.ReadAfterJoin` | crates/router/src/replication/coordinator.rs:120-176 | after an acknowledged write and a join without collisions, whatever arrived and whatever was deleted meanwhile, a read returns the value the new node holds, else the acknowledged one if the list has another node, else nothing; so it is the acknowledged value iff `StillServed` |
| `JoinDurability.AckedWriteSurvivesJoinIff` | crates/node/src/rebalance/mod.rs:148-167 | when streams are complete and the nodes that acknowledged stream what they stored, the write survives the join iff the last peer in streaming order that holds the key holds the acknowledged value, or, if the new node does not own the key, the new list has another node |
| `JoinDurability.AckedWriteSurvivesJoinAndFailures` | crates/router/src/replication/coordinator.rs:34-54 | whatever other nodes are then removed or fail, the value is still read if the new node brought it or nothing, and one written node is still listed, holds it and answers |
| `JoinDurability.JoinMayServeOlderValue` | crates/node/src/rebalance/mod.rs:148-167 | three nodes, one replica: after an acknowledged write and a join a read returns an older value |
| `JoinProtocol.RunInvariant` | crates/node/src/rebalance/mod.rs:79-96 | in every interleaving the gate is closed until the join finishes and deleted keys are absent or still to be purged |
| `JoinProtocol.WritesAreRefusedWhileJoining` | crates/node/src/grpc/service.rs:37-45 | no gated write changes the store before the node finishes joining, whatever gossip it receives |
| `JoinProtocol.NoResurrection` | crates/node/src/rebalance/mod.rs:79-96 | when the node finishes joining no key whose Delete had returned before is in its store |
| `JoinProtocol.TransferCanBringBack` | crates/node/src/grpc/service.rs:67-73 | there is a run in which the transfer brings a deleted key back and only the purge removes it |
| `Refinement.StartIsAction` | crates/node/src/gossip/state.rs:39-84 | a new table is a started node of the cluster model |
| `Refinement.ListingIsAction` | crates/node/src/gossip/protocol.rs:159-181 | listing a table is a send |
| `Refinement.ExchangeIsAction` | crates/node/src/gossip/server.rs:22-59 | serving a request is an answer with the same resulting view |
| `Refinement.ReplyIsAction` | crates/node/src/gossip/protocol.rs:119-141 | accepting a reply is a receive |
| `Refinement.PassIsAction` | crates/node/src/gossip/protocol.rs:63-111 | a detector pass is a time-out |
| `Refinement.FinishIsAction` | crates/node/src/gossip/state.rs:218-229 | mark_self_alive of a joining node finishes its join |
| `Refinement.SetIsEvent` | crates/node/src/grpc/service.rs:37-45 | a write arriving at the joining node is refused or stored by its own record |
| `Refinement.DeleteIsEvent` | crates/node/src/grpc/service.rs:61-77 | a delete that is let through removes the key |
| `Refinement.GatedDeleteIsEvents` | crates/node/src/grpc/service.rs:61-77 | a delete that meets the gate is four events: tombstone, removal and refusal |
| `Refinement.ChunkIsEvent` | crates/node/src/rebalance/mod.rs:126-143 | an accepted chunk is stored as in a transfer |
| `Refinement.SweepIsEvent` | crates/node/src/cache/expiry.rs:14-22 | a sweep discards the expired keys |
| `Refinement.PurgeIsEvents` | crates/node/src/rebalance/mod.rs:83-93 | the purge visits every tombstone once and removes exactly those keys |

## Left out

- tonic transport, channels, the client pool, timers, random peer choice, logging, configuration loading and command-line parsing: input and output; a call is an outcome, a peer choice is arbitrary.
- Decoding of gossip lines on the nodes: reports are taken as decoded (an unparsable id would become a fresh one, an unknown status Alive).
- HubConvergence.FourRoundsConverge: the meetings are given, without asking whether the nodes would choose each other; `HubConvergence.TrustingClusterConverges` shows that they may when nobody is suspected, and `Partition.LostForeverIff` when groups stay apart.
- HubConvergence.ThreeRoundsConverge: likewise.
- HubConvergence.TrustingClusterConverges: is about whom a node may choose; that the address it has for the chosen node leads there is assumed.
- Partition.LostForeverIff: no message between the groups is under way, and no node is started later; either may bring the groups together again.
- xxh3 and UUID generation: the hash and the ids are parameters; evenness of distribution is statistical.
- `mark_alive` of the membership table: nothing calls it.
- Restarting a node under an old id and listing real ids as seeds: the cluster theorems assume neither.
- RESP writes and `replicate_write` during a join: neither checks the Joining state, so the tombstone theorem covers the gated gRPC path.
- The instant between dropping the reference and removing the key in the store's `get`: it is one atomic step here.
- The candidate list and the health checks of one coordinator call are read at one instant; the time to live reaches the nodes with the value, and expiring there is a loss of data to the coordinator theorems.
- JoinDurability.ReadAfterJoin: is about a join without collision of virtual nodes and with the same usable nodes at the write and at the read; for failures besides the join `JoinDurability.AckedWriteSurvivesJoinAndFailures` gives a sufficient condition, as a read may also meet newcomers with values of any age.
- The number of transferred keys that the rebalancer returns: it counts skipped chunks and repeats.
- Overflow of incarnations and counters, allocation of huge announced arrays, recursion depth of the parser.
- RESP command dispatch (PING, ECHO, SET options and the like), the demo tool and the explicit target of the router: they would only add easy members.
- The text of error messages: errors are kinds.
