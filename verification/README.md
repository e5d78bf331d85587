# cpp-libp2p in Dafny

A model of the parts of cpp-libp2p with the most state and arithmetic, and proofs
of what they keep over whole runs. It covers a gossipsub node with its mesh,
backoff, caches, promises and peer score; the flooding of one message over a
network of such nodes; the multiformats codecs (base58, base32, base64, varints,
multihashes, content identifiers, multiaddresses); the fragmented read buffer;
the dialer's coroutines; and both ends of multistream-select.

`dafny verify dfyconfig.toml` checks the project (Dafny 4.11). The files have no
`include`s; modules refer to each other by name.

| files | what they hold |
|---|---|
| `GossipState`, `GossipSteps` | records of a node and the steps that change them; scores, shuffles and choices are answers carried by the step |
| `GossipInvariants`, `GossipMeshBounds`, `GossipMeshRuns`, `GossipBackoff` | what every run keeps: linked structures, mesh sizes, prune backoff |
| `GossipTopicOps`, `GossipNode` | the loops and methods of the node, proved to perform those steps |
| `GossipOutcomes`, `GossipRetention` | what those operations come to for the scores they are given, and who survives a cut |
| `Flooding`, `FloodingNodes` | one message over a network of nodes |
| `TopicBackoff`, `TimeCache`, `Promises`, `PromiseRuns`, `PromiseFates`, `IhaveHandling` | the fast structures and the simple ones they agree with; what becomes of each promise |
| `ScoreState`, `ScoreProofs`, `ScoreRuns`, `ScoreLaws`, `ScoreKeeper` | peer score over the reals, what each statistic adds and what each event changes |
| `Positional`, `Base58Bounds`, `Base58`, `BitGroups`, `Base32`, `Base64` | number and bit codecs |
| `Varint`, `Cid` | LEB128, multihash, content identifiers |
| `MultiaddrText`, `Multiaddr`, `MultiaddrCanonical`, `MultiaddrFaults`, `MultiaddrProtocols` | multiaddress text and bytes, what the stored text parses to, what is refused and why, the table of protocols |
| `ReadBuffer` | the fragmented byte queue |
| `DialerState`, `DialerRuns` | the dialer and every interleaving of its calls |
| `MultiselectFrames`, `MultiselectEnds`, `MultiselectRuns`, `MultiselectOutcomes` | protocol negotiation: frames, one end, both ends, how it ends |
| `Common` | shared vocabulary |

Code that updates its fields is a class whose methods are proved against step
functions on values; the step functions are what the lemmas over runs speak of.
Code that computes values is functions and lemmas.

How the outside world enters:

- Peer, topic and message identifiers are numbers, compared only for equality. A
  `PeerPtr` is an address into a map of objects, so a peer that reconnects is a new
  object with the same id.
- Time is a parameter that never goes back. In the mesh model a score is an
  arbitrary answer, and `choose` and `shuffle` return any subset or permutation.
- `onMessage` is called for registered peers.
- Score weights and counters are reals; `time_in_mesh_quantum` is at least one
  second, because the code divides by its whole seconds.
- A stream delivers bytes in arbitrary non-empty pieces. A coroutine runs alone
  between two suspension points.
- Which addresses have a transport is a fixed predicate. Whether a connection
  exists already is answered anew at every `dial`.
- Text conversions of IP addresses are functions. Round trips assume that they
  round-trip and print words without slashes.

What the code does differently from what one may expect:

- Backoff is kept per `PeerPtr`. It binds a peer id as long as that peer does not
  disconnect (`GossipBackoff.BackoffRespectedById`), and reconnecting escapes it
  (`GossipBackoff.ReconnectEscapesBackoff`).
- Cutting an overfull mesh sorts it by descending score and spares the end of the list, so
  `retain_scores` protects the members with the lowest scores
  (`GossipRetention.LowestSurvive`). A member with the best score is safe from every
  shuffle if and only if it is outbound and the quota covers all outbound members
  (`GossipRetention.BestProtectedIff`).
- Publishing looks an id up in the duplicate cache without expiring it first, so a
  stale entry stops our own message and not a peer's
  (`IhaveHandling.IwantDesk.OnPublish`, `IhaveHandling.IwantDesk.OnArrival`).
- The default `time_in_mesh_quantum` of a millisecond is zero whole seconds, so
  the score divides by zero; the model excludes it.
- An initiator of multistream-select that is refused sends its next name and then
  fails on comparing the refusal with it, while the responder may accept that name
  (`MultiselectOutcomes.QuietOutcome`).
- A multiaddress text with a host name such as "_" or a unix path parses, and then
  trips an assertion (`MultiaddrProtocols.SourcePrintsIff`,
  `MultiaddrProtocols.DnsUnderscoreFails`).
- A p2p value of white space is accepted and decodes to nothing, and the stored text
  is then no address any more (`MultiaddrCanonical.StoredTextParsesIff`,
  `MultiaddrProtocols.SourceSpaceIsLost`).
- A multihash with an empty digest can be made and written but not read
  (`Cids.BufferRoundTrip`).
- Varint decoders accept a superfluous final zero byte (`Varint.CanonicalIff`).

## Model

| member | source | states |
|---|---|---|
| `GossipInvariants.EveryRunLinked` | src/protocol/gossip/gossip.cpp:352-1251 | in every state of every run from an empty node, a live topic's `peers_` is exactly the set of registered peers whose `topics_` names it, `mesh_peers_` is part of it, and every mesh peer speaks gossipsub |
| `GossipInvariants.StepKeepsLinked` | src/protocol/gossip/gossip.cpp:567-829 | every admissible step, whatever scores and random choices answer, keeps those links |
| `GossipInvariants.LinkedBothWays` | include/libp2p/protocol/gossip/gossip.hpp:146-191 | seen from a peer: a registered peer is listed by a live topic if and only if it names the topic, and no live topic mentions an unregistered peer |
| `GossipInvariants.ConnectKeeps` | src/protocol/gossip/gossip.cpp:354-376 | a new peer object changes no subscriber set |
| `GossipInvariants.NegotiateKeeps` | src/protocol/gossip/gossip.cpp:1030-1035 | a peer's kind is fixed once, so no mesh member loses gossipsub |
| `GossipInvariants.DisconnectKeeps` | src/protocol/gossip/gossip.cpp:425-441 | walking only the peer's own `topics_` removes it from every topic that mentions it |
| `GossipInvariants.SubscriptionKeeps` | src/protocol/gossip/gossip.cpp:586-618 | both sides of the link change together, in a live topic and in one that is not |
| `GossipInvariants.GraftInKeeps` | src/protocol/gossip/gossip.cpp:701-762 | an inbound GRAFT subscribes its sender on both sides before it can enter the mesh |
| `GossipInvariants.QuietKeeps` | src/protocol/gossip/gossip.cpp:468-518 | PRUNE, opening or upgrading a topic and broadcasting keep the links |
| `GossipInvariants.HeartbeatKeeps` | src/protocol/gossip/gossip.cpp:1079-1251 | a heartbeat over all topics keeps the links for any score oracle and any shuffle |
| `GossipInvariants.BroadcastSetsDisjoint` | src/protocol/gossip/gossip.cpp:871-905 | floodsub subscribers, mesh and freshly chosen peers never overlap, so the three loops of one broadcast visit nobody twice, and only registered subscribers |
| `GossipMeshBounds.CutExact` | src/protocol/gossip/gossip.cpp:1181-1195 | the walk over a shuffled mesh ends with max(n, outbound peers it may not remove) members and at least min(outbound before, quota) outbound ones, for every order |
| `GossipMeshBounds.OverfullCut` | src/protocol/gossip/gossip.cpp:1169-1195 | an overfull mesh is cut to exactly `mesh_n` when the outbound minimum does not exceed it, keeping at least min(outbound before, `mesh_outbound_min`) outbound peers |
| `GossipMeshBounds.HeartbeatBound` | src/protocol/gossip/gossip.cpp:1143-1237 | one heartbeat of a subscribed topic ends with at most high + outbound_min + opportunistic members and at most high + opportunistic inbound ones |
| `GossipMeshBounds.GraftInBound` | src/protocol/gossip/gossip.cpp:725-762 | an inbound GRAFT keeps the bound on inbound members: an inbound peer gets in only while the mesh is not above `mesh_n_high` |
| `GossipMeshBounds.SubscriptionBound` | src/protocol/gossip/gossip.cpp:601-608 | grafting on SUBSCRIBE keeps that bound: it happens only below `mesh_n_low` |
| `GossipMeshRuns.StepKeepsBounded` | src/protocol/gossip/gossip.cpp:468-829 | no step of any kind takes the inbound side of a subscribed mesh over its limit |
| `GossipMeshRuns.EveryRunBounded` | src/protocol/gossip/gossip.cpp:1079-1237 | over every run inbound members never exceed high + max(1, opportunistic_graft_peers), for every score oracle |
| `GossipBackoff.BackoffRespected` | src/protocol/gossip/gossip.cpp:1046-1057 | after we prune a v1.1 peer it re-enters the mesh at our initiative only after prune_backoff/heartbeat_interval + backoff_slack heartbeats, and at its own only after prune_backoff/heartbeat_interval |
| `GossipBackoff.BackoffRespectedById` | src/protocol/gossip/gossip.cpp:1046-1057 | the same for any object that bears the pruned peer's id, in every run in which that peer does not disconnect in between |
| `GossipBackoff.EveryRunRing` | include/libp2p/protocol/gossip/gossip.hpp:129-141 | in every state of every run the backoff of a topic names only peer objects already made, so a returning peer's new object is not in it |
| `GossipBackoff.BeatIsFair` | src/protocol/gossip/gossip.cpp:1143-1237 | a heartbeat lowers no backoff beyond its one shift, grafts only peers without any, and charges every peer it prunes |
| `GossipBackoff.StepKeepsDebt` | src/protocol/gossip/gossip.cpp:1105-1110 | remaining slots plus heartbeats counted never decrease in any step |
| `GossipBackoff.DebtOverRun` | src/protocol/gossip/gossip.cpp:152-183 | the same over any stretch of a run |
| `GossipBackoff.EntryNeedsNoDebt` | src/protocol/gossip/gossip.cpp:1292-1300 | whoever enters the mesh owes no slot, or at most the slack if it sent GRAFT itself |
| `GossipBackoff.PruneCharges` | src/protocol/gossip/gossip.cpp:1284-1289 | each PRUNE we send to a v1.1 peer charges it the full number of slots and leaves it outside the mesh |
| `GossipBackoff.ReconnectEscapesBackoff` | include/libp2p/protocol/gossip/gossip.hpp:129-141 | the disconnection is what the guarantee depends on, because the ring is keyed by `PeerPtr`: any run in which a v1.1 peer was pruned can be continued, wherever that peer is registered and the mesh is not overfull, by its disconnecting, returning as a new object and being grafted with no heartbeat in between |
| `GossipTopicOps.Choose` | include/libp2p/protocol/gossip/gossip.hpp:196-226 | the result is a subset of the gossipsub peers that pass, without repetition, and has exactly min(count, eligible) members |
| `GossipTopicOps.Shuffle` | include/libp2p/protocol/gossip/gossip.hpp:230-232 | a permutation of the set |
| `GossipTopicOps.MakePrune` | src/protocol/gossip/gossip.cpp:1046-1057 | only the backoff changes, and only for v1.1 peers |
| `GossipTopicOps.RemoveFromMesh` | src/protocol/gossip/gossip.cpp:1060-1075 | the peer leaves the mesh; backoff is extended if it was in it or if asked to always |
| `GossipTopicOps.GraftEach` | src/protocol/gossip/gossip.cpp:1158-1168 | grafting a chosen list never meets a peer already in the mesh and adds exactly those peers |
| `GossipTopicOps.MeshOutCount` | src/protocol/gossip/gossip.cpp:203-211 | the loop counts exactly the outbound members |
| `GossipTopicOps.PruneBad` | src/protocol/gossip/gossip.cpp:1143-1153 | removing while iterating drops exactly the badly scored members and charges each of them |
| `GossipTopicOps.CutMesh` | src/protocol/gossip/gossip.cpp:1169-1195 | the in-place walk with its running outbound counter computes the cut whose bounds `CutExact` gives, and charges exactly the removed peers |
| `GossipTopicOps.BalanceSize` | src/protocol/gossip/gossip.cpp:1155-1195 | a mesh below `mesh_n_low` is refilled with exactly min(`mesh_n` - size, free well-scored peers) of them; an overfull one is cut in an order that ends with the lowest scores; one in between stays |
| `GossipTopicOps.AddOutbound` | src/protocol/gossip/gossip.cpp:1196-1212 | grafts exactly min(outbound members missing, outbound well-scored peers out of backoff) of them |
| `GossipTopicOps.AddPromising` | src/protocol/gossip/gossip.cpp:1213-1237 | on the right tick and with a weak mesh, grafts exactly min(the configured number, promising peers out of backoff) of them |
| `GossipTopicOps.BalanceMesh` | src/protocol/gossip/gossip.cpp:1143-1237 | all stages together are one heartbeat of the step system for a subscribed topic, with the bad members dropped and the choices made from the scores given |
| `GossipTopicOps.BalanceFanout` | src/protocol/gossip/gossip.cpp:1125-1142 | the same for a publish-only topic, refilled with exactly as many well-scored subscribers as there are, up to `mesh_n` |
| `GossipTopicOps.BalanceAll` | src/protocol/gossip/gossip.cpp:1123-1238 | every live topic is balanced exactly once, by its own scores |
| `GossipTopicOps.Regraft` | src/protocol/gossip/gossip.cpp:502-510 | the survivors of an upgrade are scored well enough and out of backoff, and there are exactly min(`mesh_n`, such members of the old fanout) of them |
| `GossipTopicOps.Upgrade` | src/protocol/gossip/gossip.cpp:489-516 | a publish-only topic becomes subscribed with those survivors and, when they are fewer than `mesh_n`, as many well-scored graftable subscribers as there are, up to `mesh_n` in all |
| `GossipTopicOps.Enqueue` | src/protocol/gossip/gossip.cpp:855-870 | appends exactly the peers of a set that are neither sender nor author and score well enough, each once |
| `GossipTopicOps.Fanout` | src/protocol/gossip/gossip.cpp:871-905 | one broadcast queues one copy for each willing target and none besides |
| `GossipNode.Gossip.constructor` | src/protocol/gossip/gossip.cpp:238-266 | a new node is the empty state runs start from |
| `GossipNode.Gossip.OnPeerConnected` | src/protocol/gossip/gossip.cpp:354-376 | performs the connect step; the peer is registered afterwards, as a blank object if it was not before |
| `GossipNode.Gossip.UpdatePeerKind` | src/protocol/gossip/gossip.cpp:1030-1035 | performs the negotiation step; the first kind stays |
| `GossipNode.Gossip.OnPeerDisconnected` | src/protocol/gossip/gossip.cpp:425-441 | performs the disconnect step; no topic mentions the id afterwards |
| `GossipNode.Gossip.OnSubscription` | src/protocol/gossip/gossip.cpp:586-618 | performs the subscription step |
| `GossipNode.Gossip.OnGraft` | src/protocol/gossip/gossip.cpp:701-762 | performs the GRAFT step; false exactly for a peer that does not speak gossipsub |
| `GossipNode.Gossip.OnPrune` | src/protocol/gossip/gossip.cpp:765-779 | performs the PRUNE step, whose effect `PruneOutcome` gives and whose backoff `PruneHonoured` guarantees; false exactly for a peer that does not speak gossipsub |
| `GossipNode.Gossip.OnMessage` | src/protocol/gossip/gossip.cpp:567-829 | an RPC is its subscriptions, then its GRAFTs, then its PRUNEs, as single steps in that order; from a graylisted peer it changes nothing |
| `GossipNode.Gossip.GetOrCreateTopic` | src/protocol/gossip/gossip.cpp:468-518 | performs the opening step; an upgraded topic is filled from its fit old members first and then from other well-scored subscribers, up to `mesh_n` |
| `GossipNode.Gossip.Broadcast` | src/protocol/gossip/gossip.cpp:832-905 | performs the broadcast step; without flooding exactly min(`mesh_n` - mesh, well-scored gossipsub subscribers outside it) extra peers are chosen for a publication; queues exactly one copy for each willing target, none to the sender or the author, all to registered subscribers |
| `GossipNode.Gossip.Heartbeat` | src/protocol/gossip/gossip.cpp:1079-1251 | performs the heartbeat step; every topic that is not dropped is maintained by the scores it was given, as `BeatMaintains` says |
| `GossipNode.FloodsubControlIsVoid` | src/protocol/gossip/gossip.cpp:701-779 | control messages of a peer that does not speak gossipsub change nothing |
| `Flooding.FloodInvariant` | src/protocol/gossip/gossip.cpp:684-697 | whoever has seen the message has each of its relay links served or in flight; receipts plus copies in flight are the copies sent |
| `Flooding.FloodTerminates` | src/protocol/gossip/gossip.cpp:832-905 | every schedule of one message over n nodes ends within n(n-1) receipts and copies, and delivers it exactly once at each node reached |
| `Flooding.FloodReach` | src/protocol/gossip/gossip.cpp:684-697 | with nothing in flight the nodes reached are the least set with the author and its first recipients that is closed under relay links |
| `FloodingNodes.RelayFollowsLinks` | src/protocol/gossip/gossip.cpp:871-886 | what a broadcast of a linked node queues is exactly one copy per link, by peer id, except sender and author |
| `FloodingNodes.PublishCoversLinks` | src/protocol/gossip/gossip.cpp:871-903 | publishing reaches at least everyone the node would relay to, with flood publishing or without |
| `FloodingNodes.HopIsReceipt` | src/protocol/gossip/gossip.cpp:684-697 | in a network of nodes, a receipt that enqueues what `broadcast` promises is one receipt of the flood over the relay graph, and leaves every node's structures as they were |
| `FloodingNodes.NetRunIsFlood` | src/protocol/gossip/gossip.cpp:832-905 | every run of such a network, from a node's publication on and in any order of receipts, is a flood over its relay graph |
| `FloodingNodes.NodesFlood` | src/protocol/gossip/gossip.cpp:832-905 | for every run of a network of gossipsub nodes with standing meshes: at most n(n-1) receipts and copies, one delivery at each node reached, and with nothing in flight everyone the author publishes to and everyone any reached node relays to has the message |
| `FloodingNodes.OverIff` | src/protocol/gossip/gossip.cpp:684-697 | a run of the network can go on by some receipt if and only if a copy is in flight |
| `FloodingNodes.EveryRunEnds` | src/protocol/gossip/gossip.cpp:832-905 | every run of the network can be carried to an end, where no receipt can follow |
| `FloodingNodes.EndReaches` | src/protocol/gossip/gossip.cpp:832-905 | wherever a run ends, everyone the author publishes to has the message and, with any node that has it, everyone that node relays to |
| `TopicBackoffRing.TopicBackoff.constructor` | src/protocol/gossip/gossip.cpp:137-140 | an empty ring of prune_backoff/heartbeat_interval + backoff_slack + 1 slots represents the empty countdown |
| `TopicBackoffRing.TopicBackoff.Get` | src/protocol/gossip/gossip.cpp:143-149 | reads from the ring the count of the countdown it represents |
| `TopicBackoffRing.TopicBackoff.Update` | src/protocol/gossip/gossip.cpp:152-173 | the ring represents the countdown with the maximum of old and min(slots, N-1); each tracked peer sits in exactly one slot, the one its horizon selects |
| `TopicBackoffRing.TopicBackoff.Shift` | src/protocol/gossip/gossip.cpp:176-183 | releasing one slot is subtracting one from every count, down to zero |
| `TopicBackoffRing.TopicBackoff.Replay` | src/protocol/gossip/gossip.cpp:137-183 | any sequence of calls leaves ring and countdown in agreement |
| `ScoreProofs.ReconnectingNeverPays` | include/libp2p/protocol/gossip/score.hpp:229-258 | for any topic map, with weights as the gossipsub v1.1 section on peer scoring orders them, disconnect, decays within the retention time and connect never raise a peer's score |
| `ScoreProofs.LeavingTopic` | include/libp2p/protocol/gossip/score.hpp:233-258 | a topic's contribution does not rise when it is left, because the squared deficit moves to the heavier failure penalty |
| `ScoreProofs.LeavingPeer` | include/libp2p/protocol/gossip/score.hpp:85-145 | nor does the capped sum over all topics with the global penalties |
| `ScoreProofs.TopicSumPick` | include/libp2p/protocol/gossip/score.hpp:92-127 | the sum over an unordered map does not depend on the order |
| `ScoreProofs.LeavingPaysOtherwise` | include/libp2p/protocol/gossip/score.hpp:233-258 | whenever a topic's failure weight exceeds its delivery weight, some sound table holds a peer whose score rises when it leaves and returns, so the order of weights is needed |
| `ScoreProofs.RetentionEnds` | include/libp2p/protocol/gossip/score.hpp:260-268 | one decay past the retention time forgets the record, good or bad |
| `ScoreRuns.StepKeepsSound` | include/libp2p/protocol/gossip/score.hpp:147-319 | every update keeps counters non-negative and capped, `active` only while in the mesh, and statistics only for configured topics, so `params_.topics.at` never misses |
| `ScoreRuns.EveryRunSound` | include/libp2p/protocol/gossip/score.hpp:61-384 | the same in every state of every run with monotone time |
| `ScoreKeeper.Score.ScoreOfPeer` | include/libp2p/protocol/gossip/score.hpp:85-145 | the accumulating loop computes the score, whatever the iteration order; what each statistic adds to it is `FirstDeliveriesScore` to `GlobalsAdd` |
| `ScoreKeeper.Score.Below` | include/libp2p/protocol/gossip/score.hpp:69-71 | compares that score |
| `ScoreKeeper.Score.AddPenalty` | include/libp2p/protocol/gossip/score.hpp:147-153 | performs the penalty step |
| `ScoreKeeper.Score.Graft` | include/libp2p/protocol/gossip/score.hpp:155-167 | performs the graft step |
| `ScoreKeeper.Score.Prune` | include/libp2p/protocol/gossip/score.hpp:169-185 | performs the prune step |
| `ScoreKeeper.Score.DuplicateMessage` | include/libp2p/protocol/gossip/score.hpp:188-204 | performs the duplicate-delivery step, window included |
| `ScoreKeeper.Score.DeliverMessage` | include/libp2p/protocol/gossip/score.hpp:213-227 | performs the first-delivery step, the earlier senders included |
| `ScoreKeeper.Score.Connect` | include/libp2p/protocol/gossip/score.hpp:229-231 | performs the connect step |
| `ScoreKeeper.Score.Disconnect` | include/libp2p/protocol/gossip/score.hpp:233-258 | performs the disconnect step |
| `ScoreKeeper.Score.OnDecay` | include/libp2p/protocol/gossip/score.hpp:260-319 | erasing and decaying while iterating performs the decay step |
| `TimeCaches.TimeCache.ClearExpired` | include/libp2p/protocol/gossip/time_cache.hpp:41-46 | popping the queue's front is the same as filtering all entries by age |
| `TimeCaches.TimeCache.GetOrDefault` | include/libp2p/protocol/gossip/time_cache.hpp:50-58 | a live entry keeps value and deadline, a missing one is made with the deadline now + ttl, the others are only filtered by age |
| `TimeCaches.TimeCache.PopFront` | include/libp2p/protocol/gossip/time_cache.hpp:61-67 | removes exactly one entry, one with the nearest deadline |
| `TimeCaches.DuplicateCache.Insert` | include/libp2p/protocol/gossip/time_cache.hpp:91-98 | accepts a key exactly when it is not live; the entry is stamped by the second clock reading |
| `TimeCaches.AcceptedApart` | src/protocol/gossip/gossip.cpp:689-697 | over every run of calls two acceptances of one message id are at least the duplicate cache time apart |
| `TimeCaches.RemembersUntil` | include/libp2p/protocol/gossip/time_cache.hpp:80-102 | an accepted id stays known until its deadline, whatever is inserted meanwhile |
| `TimeCaches.IDontWantCache.Insert` | include/libp2p/protocol/gossip/time_cache.hpp:122-130 | never more than 10000 entries; a known key changes nothing, a new one expires old entries and is added, and only when full is exactly one entry given up first, one with the nearest deadline |
| `Promises.GossipPromises.Add` | include/libp2p/protocol/gossip/time_cache.hpp:149-153 | records the promise unless the peer already has one for the id |
| `Promises.GossipPromises.Remove` | include/libp2p/protocol/gossip/time_cache.hpp:156-158 | forgets the id |
| `Promises.GossipPromises.ClearExpired` | include/libp2p/protocol/gossip/time_cache.hpp:171-190 | keeps exactly the promises that are not late; each peer is counted exactly as many times as it has late ones |
| `PromiseRuns.PromiseAccounting` | src/protocol/gossip/gossip.cpp:1303-1375 | in every reachable state each promised id has one promising peer and is not known as a duplicate; promises added = outstanding + cancelled by arrival + penalties charged; between heartbeats at most max_ihave_length ids are asked of one peer |
| `PromiseRuns.EveryRunBalanced` | src/protocol/gossip/gossip.cpp:836-838 | the invariant behind it, over every run |
| `PromiseRuns.IhaveKeeps` | src/protocol/gossip/gossip.cpp:1311-1375 | an IHAVE keeps it: only unknown, unpromised ids are picked, within the allowance |
| `PromiseRuns.ArriveKeeps` | src/protocol/gossip/gossip.cpp:689-697 | an arriving message keeps it |
| `PromiseRuns.PublishKeeps` | src/protocol/gossip/gossip.cpp:558-563 | so does a message of our own, which is looked up without expiring first |
| `PromiseRuns.BeatKeeps` | src/protocol/gossip/gossip.cpp:1111-1115 | a heartbeat keeps it |
| `IhaveHandling.IwantDesk.HandleIhave` | src/protocol/gossip/gossip.cpp:1311-1375 | the nested loops, shuffle and cut perform the IHAVE step with a permitted choice |
| `IhaveHandling.IwantDesk.OnArrival` | src/protocol/gossip/gossip.cpp:689-697 | performs the arrival step; new exactly when the id is not live in the duplicate cache |
| `IhaveHandling.IwantDesk.OnPublish` | src/protocol/gossip/gossip.cpp:558-563 | performs the publish step; new exactly when no entry for the id is left in the duplicate cache, stale or not |
| `IhaveHandling.IwantDesk.OnHeartbeat` | src/protocol/gossip/gossip.cpp:1303-1307 | performs the heartbeat step through the promise table; each peer's penalty is the number of promises it broke, and together they are what the accounts charge |
| `Base58Bounds.EncoderRoom` | src/multi/multibase_codec/codecs/base58.cpp:72-75 | 256^n <= 58^(n*138/100 + 1) for every n |
| `Base58Bounds.DecoderRoom` | src/multi/multibase_codec/codecs/base58.cpp:126-129 | 58^n <= 256^(n*733/1000 + 1) for every n |
| `Base58.DecodeEncode` | src/multi/multibase_codec/codecs/base58.cpp:62-170 | decode(encode(b)) = b for every byte string, leading zeros included |
| `Base58.EncodeDecode` | src/multi/multibase_codec/codecs/base58.cpp:62-170 | encode(decode(s)) = s for every string over the alphabet |
| `Base58.RoundTrip` | src/multi/multibase_codec/codecs/base58.cpp:172-182 | the same through the functions callers use, white space handling included |
| `Base58.MulAdd` | src/multi/multibase_codec/codecs/base58.cpp:78-88 | the in-place carry loop multiplies and adds exactly, and says what is carried out of the buffer |
| `Base58.FillBase58` | src/multi/multibase_codec/codecs/base58.cpp:77-92 | over all bytes nothing is ever carried out: the buffer holds the number |
| `Base58.EncodeImpl` | src/multi/multibase_codec/codecs/base58.cpp:62-106 | the whole encoder computes the shortest base-58 numeral behind one '1' per leading zero byte, in the letters `AlphabetIff` and `AlphabetOrder` fix |
| `Base58.FillBase256` | src/multi/multibase_codec/codecs/base58.cpp:130-150 | the loop up to white space or the end fails exactly on a foreign character; nothing is ever carried out, and the buffer holds the number of the word |
| `Base58.DecodeImpl` | src/multi/multibase_codec/codecs/base58.cpp:113-170 | the whole decoder accepts one word over the alphabet with white space around it, up to the first NUL, and `AcceptedIff` says which bytes it gives |
| `BitGroups.OctetsOfSymbols` | src/multi/multibase_codec/codecs/base32.cpp:45-184 | splitting padded bits into groups of five or six and back loses nothing |
| `BitGroups.SymbolsConcat` | src/multi/multibase_codec/codecs/base32.cpp:91-110 | whole groups can be coded one by one |
| `Base32.DecodeEncode` | src/multi/multibase_codec/codecs/base32.cpp:45-184 | decode(encode(b)) = b for every byte string, with exactly ceil(8n/5) characters, in both cases of letters |
| `Base32.BlockValue` | src/multi/multibase_codec/codecs/base32.cpp:45-89 | the byte and bit arithmetic of each block yields the five bits it stands for |
| `Base32.EncodeSequence` | src/multi/multibase_codec/codecs/base32.cpp:72-89 | one group, written in place, is its bits read five at a time |
| `Base32.EncodeBase32` | src/multi/multibase_codec/codecs/base32.cpp:91-110 | the loop over groups, with the erased tail, is the encoding of the whole input |
| `Base32.DecodeSequence` | src/multi/multibase_codec/codecs/base32.cpp:139-161 | or-ing symbols into bytes gives the whole bytes among their bits; fails exactly on a foreign character |
| `Base32.DecodeBase32` | src/multi/multibase_codec/codecs/base32.cpp:163-184 | the loop over groups is the decoding of the whole text |
| `Base64.DecodeEncode` | src/multi/multibase_codec/codecs/base64.cpp:94-184 | decode(encode(b)) = b for every byte string, with exactly 4*ceil(n/3) characters |
| `Base64.EncodeBase64` | src/multi/multibase_codec/codecs/base64.cpp:94-134 | the masks and shifts of the loop and of the two short cases compute the bits read six at a time, then the padding |
| `Base64.DecodeImpl` | src/multi/multibase_codec/codecs/base64.cpp:141-184 | the loop with its scratch arrays decodes the characters before the first '=', leftovers included, whenever the output buffer it sizes has room for them |
| `Base64.DecodeBase64` | src/multi/multibase_codec/codecs/base64.cpp:192-203 | accepts what the length test and the regular expression accept, matched up to a NUL |
| `Varint.DecodersAgree` | src/multi/uvarint.cpp:79-98 | on every byte sequence `calculateSize` returns k > 0 if and only if a new reader becomes ready at byte k, with equal values |
| `Varint.ReadyIff` | src/basic/varint_prefix_reader.cpp:25-54 | `calculateSize` finds a varint if and only if the reader ends up ready |
| `Varint.VarintPrefixReader.Reset` | src/basic/varint_prefix_reader.cpp:19-23 | makes the reader as good as new |
| `Varint.EncodeDecodes` | include/libp2p/basic/encode_varint.hpp:27-39 | every encoder's output, followed by anything, is read back by both decoders in at most ten bytes |
| `Varint.CanonicalIff` | src/multi/uvarint.cpp:10-19 | a decodable sequence is the encoder's own if and only if it has no superfluous final zero byte |
| `Varint.EncodeLength` | src/multi/uvarint.cpp:10-19 | at most k bytes if and only if the number is below 128^k |
| `Varint.AppendVarint` | src/multi/uvarint.cpp:10-19 | the do-while loop appends the encoding (also serializing.hpp and multihash.cpp) |
| `Varint.EncodeVarint` | include/libp2p/basic/encode_varint.hpp:27-39 | the same in an array of ten bytes, which it never outgrows |
| `Varint.CalculateSize` | src/multi/uvarint.cpp:79-98 | the shift-and-compare loop returns the size of the varint at the front, zero if there is none |
| `Varint.ToUInt64` | src/multi/uvarint.cpp:39-47 | the sum of shifted groups is the value modulo 2^64, hence the value of a varint and zero for the empty buffer of an invalid one |
| `Varint.VarintPrefixReader.ConsumeByte` | src/basic/varint_prefix_reader.cpp:25-54 | value, state and count after every byte, tenth byte and wrong calls included |
| `Varint.VarintPrefixReader.ConsumeBuffer` | src/basic/varint_prefix_reader.cpp:56-70 | a buffer leaves the reader as its bytes one by one would, and is cut exactly after the varint, or not at all on overflow |
| `Varint.ReadInChunks` | src/basic/varint_prefix_reader.cpp:56-70 | the result does not depend on how the bytes are cut into buffers |
| `ReadBuffers.ReadBuffer.Replay` | src/basic/read_buffer.cpp:22-194 | any sequence of add, consume, addAndConsume and clear, with any growth of the vectors at each, hands out what a FIFO queue would, and holds what it would |
| `ReadBuffers.NothingLost` | src/basic/read_buffer.cpp:22-194 | until it is cleared, what went in is what came out followed by what is there: nothing lost, repeated or reordered |
| `ReadBuffers.ReadBuffer.Add` | src/basic/read_buffer.cpp:22-56 | appends, in each of the three allocation cases, and its asserts hold |
| `ReadBuffers.ReadBuffer.Consume` | src/basic/read_buffer.cpp:58-82 | hands out min(n, size) bytes from the front; the loop ends |
| `ReadBuffers.ReadBuffer.ConsumePart` | src/basic/read_buffer.cpp:170-194 | takes at least one byte, so the loop over fragments makes progress |
| `ReadBuffers.ReadBuffer.ConsumeAll` | src/basic/read_buffer.cpp:126-168 | copies every fragment in order and leaves an empty buffer with a reusable fragment |
| `ReadBuffers.ReadBuffer.AddAndConsume` | src/basic/read_buffer.cpp:84-117 | serves the old bytes before the new ones, in every case of sizes |
| `ReadBuffers.ReadBuffer.Clear` | src/basic/read_buffer.cpp:119-124 | empties the buffer |
| `DialerRuns.EveryRunCoherent` | src/network/dialer.cpp:33-138 | for every interleaving of `dial` calls and transport answers: one attempt in flight for each table entry and no other; queued addresses within `addr_seen`; STATE_INCONSISTENCY and HOST_UNREACHABLE never returned; ADDRESS_FAMILY_NOT_SUPPORTED returned if and only if no address had a transport; an error only after every offered address with a transport was tried |
| `DialerRuns.StepKeepsCoherent` | src/network/dialer.cpp:33-138 | each call and each answer keeps that |
| `DialerRuns.OwnerTakesEntryAlong` | src/network/dialer.cpp:71-138 | when the owner returns, it returns its transport's last answer and the entry is gone |
| `DialerRuns.NoAddressTwice` | src/network/dialer.cpp:46-65 | a caller who names no address twice has none dialled twice, whatever others add |
| `DialerState.Dialer.Dial` | src/network/dialer.cpp:33-69 | reuses, joins, refuses or starts, as the step function says |
| `DialerState.Dialer.Populate` | src/network/dialer.cpp:45-51 | adds each unseen address once, in order |
| `DialerState.Dialer.Rotate` | src/network/dialer.cpp:71-131 | the recursion skips to the first address with a transport, or returns the verdict and removes the entry |
| `DialerState.Dialer.Resume` | src/network/dialer.cpp:106-131 | what follows a transport's answer |
| `DialerState.Dialer.CompleteDial` | src/network/dialer.cpp:133-138 | removes the entry if there is one |
| `MultiselectFrames.FrameProgress` | include/libp2p/basic/read_varint.hpp:46-91 | however a frame is cut, no read asks for a byte beyond its end, and at its end exactly the written name comes out |
| `MultiselectFrames.CreateMessage` | include/libp2p/protocol_muxer/multiselect/serializing.hpp:37-59 | frames a name of at most 65531 bytes; the second size test never fails |
| `MultiselectFrames.Connection.Read` | include/libp2p/basic/read.hpp:12-25 | exactly n bytes from pieces of any size, or none when the stream ends first |
| `MultiselectFrames.Connection.ReadVarint` | include/libp2p/basic/read_varint.hpp:46-62 | takes bytes up to the first that ends or overflows the varint |
| `MultiselectFrames.Connection.ReadOne` | src/protocol_muxer/multiselect.cpp:27-36 | takes one frame exactly, or gives the reason why there is none |
| `MultiselectEnds.SelectOneOf` | src/protocol_muxer/multiselect.cpp:51-112 | an end writes and returns what the step functions say for the names it reads from any stream, valid or not; it reads nothing after it has finished, and stops before only when the next frame cannot be read, for that reason; a name too long to frame ends it with the exception of `.value()`, shown as `Thrown` |
| `MultiselectOutcomes.Agreement` | src/protocol_muxer/multiselect.cpp:51-112 | if both ends succeed they hold the same name, in both lists, the initiator's first choice, and no byte is left over |
| `MultiselectOutcomes.QuietOutcome` | src/protocol_muxer/multiselect.cpp:78-111 | a run that can go no further: both return the first choice if and only if the responder supports it; otherwise the initiator fails, and a responder that supports the second choice accepts that one alone |
| `MultiselectOutcomes.EveryRunEnds` | src/protocol_muxer/multiselect.cpp:51-112 | every interleaving is over after at most 2 + 6 * 65535 steps |
| `MultiselectRuns.EveryRunCoherent` | src/protocol_muxer/multiselect.cpp:51-112 | names read are the first ones written and the bytes underway are the frames of the others, in every state |
| `MultiselectRuns.ReadOk` | include/libp2p/basic/read_varint.hpp:76-91 | a read of any permitted size keeps a channel aligned with its frames |
| `Cids.BufferRoundTrip` | src/multi/multihash.cpp:54-116 | a multihash of at most 127 bytes is read back, unless its digest is empty |
| `Cids.WriteMultihash` | src/multi/multihash.cpp:41-62 | type, length byte and digest |
| `Cids.ReadMultihash` | src/multi/multihash.cpp:93-116 | through the byte reader, with each of its errors |
| `Cids.DecodeEncodeCid` | src/multi/content_identifier_codec.cpp:57-77 | decode(encode(cid)) = cid for both versions, content types widened to 64 bits and cut back to 32; an empty digest is refused |
| `Cids.WriteCid` | src/multi/content_identifier_codec.cpp:57-77 | the buffer of both versions, with the checks of version 0 |
| `Cids.V0Text` | src/multi/content_identifier_codec.cpp:146-162 | every version 0 identifier prints as 46 base58 characters starting with "Qm" |
| `Cids.TextRoundTrip` | src/multi/content_identifier_codec.cpp:146-198 | fromString(toString(cid)) = cid for every printable identifier, if and only if the digest is not empty |
| `Multiaddr.RoundTrips` | src/multi/converters/converter_utils.cpp:79-283 | text and bytes of every non-empty list of supported components undo each other, both ways |
| `Multiaddr.BytesPrint` | src/multi/converters/converter_utils.cpp:183-283 | the bytes of a list print as its text |
| `Multiaddr.TextParses` | src/multi/converters/converter_utils.cpp:79-140 | the text of a list parses to its bytes |
| `Multiaddr.TextOfConcat` | src/multi/converters/converter_utils.cpp:183-283 | for all bytes that print, and any bytes after them, the text of the concatenation is the concatenation of texts, errors included |
| `Multiaddr.PrintsIff` | src/multi/multiaddress.cpp:56-72 | parsed bytes print again, as `create` asserts, if and only if every host name is made of letters, digits, hyphens and dots and no value is of a kind only the parser knows |
| `Multiaddr.UnderscoreFails` | src/multi/multiaddress.cpp:56-72 | concretely, a host name "_" parses and trips the assertion |
| `Multiaddr.MultiaddrToBytes` | src/multi/converters/converter_utils.cpp:79-140 | the loop over words with its protocol/address state computes the parse, first error first |
| `Multiaddr.AddressBytes` | src/multi/converters/converter_utils.cpp:142-181 | the switch over protocols, with the converters it calls, gives the bytes of a value or the error |
| `Multiaddr.BytesToMultiaddrString` | src/multi/converters/converter_utils.cpp:183-283 | the loop that advances the span computes the text |
| `Multiaddr.ReadValue` | src/multi/converters/converter_utils.cpp:218-278 | the switch over protocols reads the value and writes its text, or gives the error |
| `Multiaddr.CreateFromText` | src/multi/multiaddress.cpp:56-72 | an error, an address whose two forms agree, or a failed assertion, and exactly when |
| `Multiaddr.CreateFromBytes` | src/multi/multiaddress.cpp:74-82 | an address whose two forms agree, or nothing |
| `Multiaddr.Multiaddress.Encapsulate` | src/multi/multiaddress.cpp:91-96 | appending to both stored forms keeps them forms of one address, also when the argument is the object itself |
| `Multiaddr.FindsOwn` | include/libp2p/multi/multiaddress_protocol_list.hpp:93-116 | in a table with distinct names and codes each entry is found under its own |
| `Multiaddr.GetByName` | include/libp2p/multi/multiaddress_protocol_list.hpp:93-103 | the loop finds the first entry of that name, "ipfs" standing for "p2p" |
| `Multiaddr.GetByCode` | include/libp2p/multi/multiaddress_protocol_list.hpp:109-116 | the loop finds the first entry of that code |
| `Multiaddr.PortOf` | src/multi/converters/tcp_converter.cpp:13-32 | digits only, with a value of at most 65535, as two big-endian bytes; anything else is refused |
| `MultiaddrProtocols.TableWellFormed` | include/libp2p/multi/multiaddress_protocol_list.hpp:131-170 | the 35 entries are such a table |
| `MultiaddrProtocols.SourceRoundTrips` | src/multi/converters/converter_utils.cpp:79-283 | so with the table of the source, text and bytes of every non-empty list of supported components undo each other |
| `MultiaddrProtocols.SourcePrintsIff` | src/multi/multiaddress.cpp:56-72 | and a text `create` has parsed prints again if and only if its words are printable |
| `MultiaddrProtocols.DnsUnderscoreFails` | src/multi/multiaddress.cpp:56-72 | the text "/dns/_" parses and trips the assertion of `create` |
| `MultiaddrCanonical.StoredTextParsesIff` | src/multi/multiaddress.cpp:56-72 | for every text `create` accepts, the string it stores parses to the bytes it stores if and only if no p2p value is blank |
| `MultiaddrCanonical.NothingIffBlank` | src/multi/multibase_codec/codecs/base58.cpp:113-170 | a base58 word decodes to nothing exactly when it is white space up to its end or a NUL |
| `MultiaddrCanonical.WordsAreComponents` | src/multi/converters/converter_utils.cpp:79-140 | accepted printable words are the text of a list of components, each carried by the bytes, and supported by the text exactly when no p2p word is blank |
| `MultiaddrCanonical.EmptyValueUnreadable` | src/multi/converters/converter_utils.cpp:79-140 | the text of a list with an empty p2p value does not parse, wherever in the list it is |
| `MultiaddrProtocols.SourceTextParsesIff` | src/multi/multiaddress.cpp:56-72 | the same with the table of the source |
| `MultiaddrProtocols.SourceSpaceIsLost` | src/multi/multiaddress.cpp:56-72 | the text "/p2p/ " is accepted, and the string then stored is not read back as the bytes stored |
| `MultiaddrText.EscapesUndone` | src/multi/converters/converter_utils.cpp:29-75 | percentDecode(percentEncode(s)) = s for every byte string |
| `MultiaddrText.EscapedWord` | src/multi/converters/converter_utils.cpp:29-45 | an escaped name has no slash |
| `MultiaddrText.PercentEncodeInto` | src/multi/converters/converter_utils.cpp:29-45 | the appending loop |
| `MultiaddrText.PercentDecodeAll` | src/multi/converters/converter_utils.cpp:48-75 | the loop that shortens its view, malformed escapes kept as they are |
| `MultiaddrText.PortRoundTrip` | src/multi/converters/tcp_converter.cpp:13-32 | every port prints as digits that parse to its two bytes |
| `MultiaddrText.SplitJoin` | src/multi/converters/converter_utils.cpp:101-102 | words without slashes come apart as they were put together |
| `GossipOutcomes.BeatMaintains` | src/protocol/gossip/gossip.cpp:1123-1238 | what one heartbeat makes of a topic, given its scores: badly scored members leave and no others do unless the mesh is overfull; a mesh below `mesh_n_low` grows to `mesh_n` or takes every free well-scored peer; the outbound quota is met or nobody is left to help; a weak mesh takes promising peers on its tick; the `retain_scores` lowest-scored members of an overfull mesh stay; exactly the v1.1 members sent away are charged; nobody else comes |
| `GossipOutcomes.SubscribeOutcome` | src/protocol/gossip/gossip.cpp:586-608 | SUBSCRIBE lists the peer and grafts it exactly when the mesh is thin, the peer speaks gossipsub, owes no backoff and scores well; nothing else changes |
| `GossipOutcomes.UnsubscribeOutcome` | src/protocol/gossip/gossip.cpp:609-618 | UNSUBSCRIBE takes the peer out of subscribers and mesh and charges a member in full; nothing else changes |
| `GossipOutcomes.GraftOutcome` | src/protocol/gossip/gossip.cpp:701-762 | GRAFT lists the peer; it gets in exactly when its backoff is within the slack, it is outbound or the mesh is not above `mesh_n_high`, and it scores well; refused v1.1 peers are charged in full |
| `GossipOutcomes.PruneOutcome` | src/protocol/gossip/gossip.cpp:765-779 | PRUNE takes the peer out of the mesh and leaves its backoff at least at what it asked for, clamped |
| `GossipOutcomes.DisconnectOutcome` | src/protocol/gossip/gossip.cpp:425-441 | a disconnection removes the peer from the registry and from every topic's subscribers and mesh; backoff stays |
| `GossipOutcomes.QueuesDeliver` | src/protocol/gossip/gossip.cpp:855-905 | who gets a copy of a message, in terms of kind, mesh, score, sender, author and flooding, each once |
| `GossipOutcomes.BroadcastOutcome` | src/protocol/gossip/gossip.cpp:884-903 | only a publish-only topic published to without flooding takes the extra peers into its mesh; nothing else changes |
| `GossipOutcomes.PublicationReaches` | src/protocol/gossip/gossip.cpp:871-905 | our own message is queued for at least `mesh_n` well-scored gossipsub subscribers, or for all there are, with flood publishing or without |
| `GossipOutcomes.UpgradeOpensWell` | src/protocol/gossip/gossip.cpp:489-516 | an upgraded topic's mesh is filled from the old members that are fit before any other subscriber, up to `mesh_n` or with everyone there is |
| `GossipBackoff.PruneHonoured` | src/protocol/gossip/gossip.cpp:765-779 | over every run: after a gossipsub peer sends PRUNE with a number of slots in a subscribed topic, it enters the mesh again only after min(slots, N-1) heartbeats, less the slack if it sent GRAFT itself |
| `GossipBackoff.UnsubscribeHonoured` | src/protocol/gossip/gossip.cpp:609-618 | over every run: a member that unsubscribes enters the mesh again only after the full number of slots, with the same slack |
| `GossipNode.PruneHasLastWord` | src/protocol/gossip/gossip.cpp:567-829 | of one RPC that both grafts and prunes a topic, the peer ends outside its mesh |
| `GossipNode.GraftSubscribes` | src/protocol/gossip/gossip.cpp:701-712 | whatever an RPC unsubscribes, its GRAFTs leave the peer subscribed |
| `GossipState.KindsApart` | src/protocol/gossip/gossip.cpp:217-229 | a peer floods exactly if it is supported, or not yet known, and does not speak gossipsub; v1.1 is gossipsub other than 1.0 |
| `ScoreLaws.FirstDeliveriesScore` | include/libp2p/protocol/gossip/score.hpp:110-112 | n first deliveries in one topic and nothing else score min(n, cap) * weight * topic weight |
| `ScoreLaws.TimeInMeshScore` | include/libp2p/protocol/gossip/score.hpp:99-109 | k whole quanta in the mesh and nothing else score min(k, cap) * weight * topic weight |
| `ScoreLaws.DeficitScore` | include/libp2p/protocol/gossip/score.hpp:113-120 | past the grace period, missing mesh deliveries score their square * weight * topic weight |
| `ScoreLaws.GraceScore` | include/libp2p/protocol/gossip/score.hpp:113-115 | within it they score nothing |
| `ScoreLaws.FailureScore` | include/libp2p/protocol/gossip/score.hpp:121-122 | a failure penalty scores itself * weight * topic weight |
| `ScoreLaws.InvalidScore` | include/libp2p/protocol/gossip/score.hpp:123-125 | n invalid messages score n squared * weight * topic weight |
| `ScoreLaws.GlobalScore` | include/libp2p/protocol/gossip/score.hpp:131-143 | the application score counts by its weight, behaviour by the square of its excess over the threshold, slowness by its excess |
| `ScoreLaws.TermsAdd` | include/libp2p/protocol/gossip/score.hpp:98-126 | the score of a topic is the sum of the scores of its single statistics |
| `ScoreLaws.TopicsAdd` | include/libp2p/protocol/gossip/score.hpp:92-127 | without a cap the topics of a peer add up, and a topic without parameters adds nothing |
| `ScoreLaws.GlobalsAdd` | include/libp2p/protocol/gossip/score.hpp:128-143 | the capped sum over topics and the three global terms add up; the cap bounds the topics alone |
| `ScoreLaws.GraftLaw` | include/libp2p/protocol/gossip/score.hpp:155-167 | a graft starts the clock and the grace period and changes no counter, for nobody else and no other topic |
| `ScoreLaws.PruneLaw` | include/libp2p/protocol/gossip/score.hpp:169-185 | a prune stops both and adds the squared deficit past the grace period to the failure penalty |
| `ScoreLaws.PenaltyLaw` | include/libp2p/protocol/gossip/score.hpp:147-153 | n penalties raise the behaviour penalty by n and nothing else |
| `ScoreLaws.DeliveriesLaw` | include/libp2p/protocol/gossip/score.hpp:333-348 | n first deliveries raise the first deliveries by n up to the cap, and the mesh deliveries of a member likewise |
| `ScoreLaws.DeliverOthers` | include/libp2p/protocol/gossip/score.hpp:213-227 | the statistics of everybody else stay as they are, earlier senders included |
| `ScoreLaws.EntriesLaw` | include/libp2p/protocol/gossip/score.hpp:155-227 | only connecting makes an entry for a peer |
| `ScoreLaws.RecordLaw` | include/libp2p/protocol/gossip/score.hpp:188-192 | the record of a message lives for two minutes, and a later lookup starts a blank one |
| `ScoreLaws.ValidFrom` | include/libp2p/protocol/gossip/score.hpp:213-221 | the first delivery fixes the time a message was valid, and later ones do not move it |
| `ScoreLaws.DuplicateLaw` | include/libp2p/protocol/gossip/score.hpp:188-204 | a duplicate counts once for each peer, for mesh members within the window after validity, and as an invalid message if it was one |
| `ScoreLaws.DecayLaw` | include/libp2p/protocol/gossip/score.hpp:270-295 | n decays are a geometric decrease that ends in zero at the floor, and never an increase |
| `ScoreLaws.DecayOutcome` | include/libp2p/protocol/gossip/score.hpp:270-315 | which rate each counter decays by, and when the grace period of a member ends |
| `ScoreLaws.RetainedLaw` | include/libp2p/protocol/gossip/score.hpp:260-268 | the record of a peer that left is kept unchanged up to its deadline and not beyond |
| `ScoreLaws.LeavingLaw` | include/libp2p/protocol/gossip/score.hpp:233-258 | leaving with a positive score forgets the peer, otherwise its record keeps everything but first deliveries and mesh time, which become a failure where they fell short |
| `ScoreLaws.ConnectLaw` | include/libp2p/protocol/gossip/score.hpp:229-231 | connecting keeps a record that is there, and starts an empty one otherwise |
| `PromiseFates.IhaveOutcome` | src/protocol/gossip/gossip.cpp:1311-1375 | an IHAVE asks for exactly min(news, allowance left) ids, none once the peer has sent too many, and each is then promised by that peer alone until now + followup |
| `PromiseFates.PromiseStands` | src/protocol/gossip/gossip.cpp:1356-1375 | a promise stands until its message comes or a heartbeat after its time sweeps it, whatever else happens |
| `PromiseFates.PromiseFate` | src/protocol/gossip/gossip.cpp:1303-1307 | the first heartbeat after the follow-up time charges the peer that promised a message which has not come, and one within the time does not |
| `PromiseFates.ArrivalCancels` | src/protocol/gossip/gossip.cpp:836-838 | the message itself cancels the promise and nobody is charged |
| `TimeCaches.AcceptedAgainIff` | include/libp2p/protocol/gossip/time_cache.hpp:91-98 | a message id accepted once is accepted again exactly when the cache time has passed, to the boundary |
| `Base58.AlphabetIff` | src/multi/multibase_codec/codecs/base58.cpp:16-18 | the alphabet is the letters and digits without 0, I, O and l |
| `Base58.AlphabetOrder` | src/multi/multibase_codec/codecs/base58.cpp:17-40 | its digits are in the order of the character codes, which with the inverse laws fixes all 58 |
| `Base58.SpaceIff` | src/multi/multibase_codec/codecs/base58.cpp:42-57 | white space is the blank and the codes 9 to 13 |
| `Base58.AcceptedIff` | src/multi/multibase_codec/codecs/base58.cpp:113-170 | a text decodes to b if and only if it is the encoding of b with white space around it, up to a NUL or the end |
| `Base32.AlphabetIff` | src/multi/multibase_codec/codecs/base32.cpp:37-38 | the alphabet is the letters of one case and 2 to 7 |
| `Base32.AlphabetOrder` | src/multi/multibase_codec/codecs/base32.cpp:37-38 | letters come before digits, each in order |
| `Base64.AlphabetIff` | src/multi/multibase_codec/codecs/base64.cpp:45-46 | the alphabet is the letters, the digits, plus and slash |
| `Base64.AlphabetOrder` | src/multi/multibase_codec/codecs/base64.cpp:45-66 | capitals, small letters, digits, plus and slash in this order |
| `Base64.AcceptedIff` | src/multi/multibase_codec/codecs/base64.cpp:192-203 | accepted are exactly whole groups of four characters of the alphabet of which the last one or two may be '=' |
| `Varint.KnownVarints` | src/multi/uvarint.cpp:10-19 | 1, 127, 128, 255, 300 and 16384 byte for byte: low groups first, the high bit on all but the last |
| `Cids.MultihashIff` | src/multi/multihash.cpp:93-116 | bytes are a multihash if and only if they are a varint, the length of the digest and a digest of 1 to 127 bytes |
| `Cids.MultihashFaults` | src/multi/multihash.cpp:93-116 | the error for each way in which they are not |
| `Cids.V0Iff` | src/multi/content_identifier_codec.cpp:64-75 | version 0 is written exactly for a 32-byte sha2-256 of a protobuf node, with the error of the first condition missed |
| `Cids.CidFaults` | src/multi/content_identifier_codec.cpp:118-143 | no version, a malformed or reserved one, or no content type |
| `Cids.V1Bytes` | src/multi/content_identifier_codec.cpp:60-63 | a version 1 sha2-256 of a protobuf node is 0x01701220 and the digest |
| `Cids.V1Text` | src/multi/content_identifier_codec.cpp:154-156 | and prints as "b" and 58 base32 characters |
| `Cids.AnyBase` | src/multi/multibase_codec/multibase_codec_impl.cpp:27-102 | non-empty bytes come back from base32 in either case, base58 and base64 behind the character of each |
| `Cids.NoBase` | src/multi/multibase_codec/multibase_codec_impl.cpp:90-102 | another first character, or a text without a digit, is refused |
| `MultiaddrFaults.ReadsIff` | src/multi/converters/converter_utils.cpp:142-181 | a word is turned into bytes exactly when it denotes a value of the protocol's kind, and then into that value, bare or behind its length |
| `MultiaddrFaults.RefusedFor` | src/multi/converters/converter_utils.cpp:142-181 | the error for a refused word depends on the protocol alone; host names, paths and unix paths are never refused |
| `MultiaddrFaults.IpfsIsP2p` | include/libp2p/multi/multiaddress_protocol_list.hpp:93-103 | "ipfs" is read as "p2p" wherever a protocol is expected |
| `MultiaddrFaults.FirstFault` | src/multi/converters/converter_utils.cpp:104-140 | after any list of supported components the first fault is the one reported: empty or unknown protocol, missing or wrong value |
| `MultiaddrFaults.TextForm` | src/multi/converters/converter_utils.cpp:79-102 | one slash at the front is required, one at the end is ignored, and the words between are parsed |
| `MultiaddrFaults.FirstByteFault` | src/multi/converters/converter_utils.cpp:183-283 | after the bytes of any list of components the first fault is the one reported: unknown code, unprintable kind, missing bytes, a length that is too large, a foreign character in a host name |
| `MultiaddrFaults.EndlessCode` | src/multi/converters/converter_utils.cpp:192-206 | so is a code that does not end |
| `MultiaddrFaults.HostCharIff` | src/multi/converters/converter_utils.cpp:230-238 | a host name is made of letters, digits, hyphens and dots |
| `MultiaddrText.PortIff` | src/multi/converters/tcp_converter.cpp:13-32 | a word is read as two port bytes if and only if it is the decimal numeral of their big-endian value, leading zeros allowed |
| `MultiaddrText.EscapedIff` | src/multi/converters/converter_utils.cpp:29-45 | the bits of the mask select exactly controls, blank, delete, everything beyond ASCII and ten signs |
| `MultiaddrText.HexIff` | src/multi/converters/converter_utils.cpp:49-60 | hexadecimal digits of either case are read, and nothing else |
| `MultiaddrText.DecodesPlain` | src/multi/converters/converter_utils.cpp:61-75 | text without a percent sign stays as it is, before anything |
| `MultiaddrText.DecodesEscape` | src/multi/converters/converter_utils.cpp:61-75 | an escape is one byte, high digit first; a percent sign without two digits after it stays |
| `MultiaddrProtocols.Wire0To4` | include/libp2p/multi/multiaddress_protocol_list.hpp:132-136 | name, bytes of the code and kind of value of these rows |
| `MultiaddrProtocols.Wire5To9` | include/libp2p/multi/multiaddress_protocol_list.hpp:137-141 | name, bytes of the code and kind of value of these rows |
| `MultiaddrProtocols.Wire10To14` | include/libp2p/multi/multiaddress_protocol_list.hpp:142-146 | name, bytes of the code and kind of value of these rows |
| `MultiaddrProtocols.Wire15To19` | include/libp2p/multi/multiaddress_protocol_list.hpp:148-152 | name, bytes of the code and kind of value of these rows |
| `MultiaddrProtocols.Wire20To24` | include/libp2p/multi/multiaddress_protocol_list.hpp:153-157 | name, bytes of the code and kind of value of these rows |
| `MultiaddrProtocols.Wire25To29` | include/libp2p/multi/multiaddress_protocol_list.hpp:158-162 | name, bytes of the code and kind of value of these rows |
| `MultiaddrProtocols.Wire30To31` | include/libp2p/multi/multiaddress_protocol_list.hpp:163-165 | name, bytes of the code and kind of value of these rows |
| `MultiaddrProtocols.Wire32To34` | include/libp2p/multi/multiaddress_protocol_list.hpp:166-168 | name, bytes of the code and kind of value of these rows |
| `MultiaddrProtocols.SizesFit` | include/libp2p/multi/multiaddress_protocol_list.hpp:131-170 | in every row the bits of the size are the bytes a fixed-size value takes, and values behind a length have none |
| `DialerRuns.DialledInOrder` | src/network/dialer.cpp:46-98 | over every run addresses are dialled in the order they were taken up, the caller's own first; exactly those without a transport are passed over |
| `DialerRuns.DialAnswers` | src/network/dialer.cpp:33-98 | what a call comes to at once: the existing connection, a dial in progress whose queue takes the new addresses, no address, none with a transport, or the first one that has one |
| `MultiselectFrames.WireForm` | include/libp2p/protocol_muxer/multiselect/serializing.hpp:37-59 | the greeting and the refusal byte for byte, and the longest name that can be framed |
| `MultiselectFrames.FrameFaults` | src/protocol_muxer/multiselect.cpp:27-36 | which whole frames are refused and why: longer than 65535 bytes, empty, or without a final new line |
| `GossipRetention.SortByScore` | src/protocol/gossip/gossip.cpp:1176-1178 | the sort keeps the members and puts them in descending order of score |
| `GossipRetention.FrontShuffled` | src/protocol/gossip/gossip.cpp:1176-1180 | shuffling all but the last `retain_scores` of a descending list leaves the lowest scores at its end |
| `GossipRetention.TailSurvives` | src/protocol/gossip/gossip.cpp:1182-1194 | the last k of the walk survive it, for every order, if k and the outbound quota fit `mesh_n` together |
| `GossipRetention.LowestSurvive` | src/protocol/gossip/gossip.cpp:1171-1195 | so an overfull mesh keeps its `retain_scores` members with the lowest scores |
| `GossipRetention.BestProtectedIff` | src/protocol/gossip/gossip.cpp:1171-1195 | in a mesh that is cut, a member with the best score survives every shuffle if and only if it is outbound and the outbound quota covers all outbound members |
| `GossipTopicOps.WalkOrder` | src/protocol/gossip/gossip.cpp:1171-1180 | the order of the walk is a permutation of the mesh with the `retain_scores` lowest scores at its end, descending |
| `MultiselectEnds.InputDecides` | src/protocol_muxer/multiselect.cpp:27-112 | the bytes that arrive decide which names an end reads and what it returns: two outcomes that meet the contract of `SelectOneOf` are the same |

## Left out

- GossipNode.Gossip.OnMessage: covers the graylist test, subscriptions, GRAFT and PRUNE; whether the peer is graylisted is an answer of the score. A published message in the same RPC is the separate `Broadcast` step and `IwantDesk.OnArrival`, IHAVE is `IwantDesk.HandleIhave`, and IDONTWANT is `IDontWantCache`. IWANT replies change none of the modelled structures.
- GossipTopicOps.AddPromising: takes the median as an arbitrary answer, because the code reads past the middle, and past the end for two peers.
- GossipNode.Gossip.Broadcast: states the copies queued and the mesh. The message cache, the history and IDONTWANT to promising peers are not modelled; removing the promises is `IwantDesk.Settle`.
- GossipNode.Gossip.Heartbeat: states the topics and the tick. Gossip emission and the history shift are not modelled; the IHAVE counters and penalties are `IwantDesk.OnHeartbeat`.
- Announcing topics to peers that are already connected, and when a publish-only topic is dropped: any publish-only topic may be dropped by a heartbeat.
- RPC batches, their splitting and writing, protobuf encoding, signatures and message ids: encodings and foreign code. A message is valid or it does not arrive.
- `History`, the message cache and `emit_gossip`: bounded queues that would only add easy members.
- Base58.EncodeImpl: buffer sizes are unbounded integers; the source computes them in `int`, which overflows for inputs of many megabytes.
- Base58, base32 and base64 decoders model strings with embedded NUL as the C-string functions see them; lengths beyond `size_t` are not modelled.
- Base16: its lower-case decoder rejects text made of digits only. Content identifiers take it as an unspecified function.
- ReadBuffers.ReadBuffer.Add: how far a vector over-allocates is an arbitrary number. `FixedBufferCollector` is not modelled.
- TimeCaches.TimeCache.ClearExpired: stored map iterators are modelled as keys.
- DialerState.Dialer.Dial: `onConnection`, `dialFailed` and closing a stray connection are calls into other components and have no effect here; they are taken not to re-enter the dialer.
- MultiselectEnds.SelectOneOf: writes succeed and are not cut; reads may end at any byte. The exception for a name too long to frame leaves the coroutine in the source and is a result `Thrown` here.
- Multiaddr.Multiaddress.Encapsulate: for an address encapsulated in itself the source inserts a range of the vector it grows, which the language leaves undefined; the model copies the bytes first.
- Base64.DecodeImpl: asks that the characters before '=' fit the buffer of n / 4 * 3 bytes, as the length test of its only caller makes sure; for other lengths the source writes past the buffer.
- Varint.ToUInt64: at most ten bytes, which is what a `UVarint` can hold; a longer buffer would shift by 64 places or more, which the language leaves undefined.
- Multiaddr.CreateFromText: `decapsulate`, `splitFirst`, `hasProtocol` and `getProtocolsWithValues` match substrings or names that are not aligned to components and are not modelled.
- ScoreProofs.ReconnectingNeverPays: over the reals; rounding of `double` is not modelled.
- Floating point, QUIC, asio, dependency injection, logging, the C API, crypto, TLS, Keccak, peer repositories, ping and echo: I/O, foreign calls or easy.
