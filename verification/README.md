# Network stack models in Dafny

Five parts of a network laboratory's C code, modelled and verified:

- **Spanning tree** (`StpVector`, `StpSwitch`, `StpDevice`, `StpNetwork`, `StpProgress`,
  `StpConvergence`, `StpAttain`, `StpDistance`, `StpLoss`): switches exchange configs over
  point-to-point links that lose, delay, repeat and reorder (clause 8 of IEEE 802.1D-1998). `StpSwitch` is one switch as a value, `StpDevice` the
  object whose ports are overwritten in place, proved to be that value. `StpNetwork` runs any number
  of switches; the invariant carries, for every stored or travelling vector, a simple path that
  accounts for it. Results: agreement on the smallest id, shortest costs, a loop-free set of
  forwarding links, no worsening, a bound on the number of changes in any run, and which losses keep
  the network from settling.
- **Longest-prefix tries** (`Powers`, `Routes`, `Keys`, `Slots`, `Contents`, `TrieHeap`, `BitTrie`,
  `NibbleTrie`, `LeafFree`, `LeafPushTrie`, `LinearScan`): linked nodes on the heap, with a ghost map from paths
  to nodes. The bitwise trie, the 4-bit trie with prefix expansion and the leaf-pushed trie all
  answer with the route a linear scan picks (section 5.2.4.3 of RFC 1812).
- **Route computation** (`MospfGraph`, `MospfPaths`, `MospfTable`, `MospfHops`, `MospfRerun`,
  `MospfDatabase`, `MospfRouter`, `MospfForwarding`): Dijkstra over the link-state database, the rebuilt forwarding list and the
  lookup in it (section 16.1 of RFC 2328).
- **Byte stream** (`SeqNum`, `RingBuffer`, `TcpState`, `TcpWrite`, `TcpSocket`, `TcpStream`, `TcpRun`,
  `TcpAnswers`, `TcpStall`, `TcpMarker`): one direction of an established connection, with 32-bit wrap-around (section 3.4 of
  RFC 9293), over a channel that loses, duplicates, delays and reorders.
- **MAC table** (`MacRecords`, `MacHeap`): hash chains of linked entries, swept in place.

Where the C code changes things in place the model does too: classes with the same fields and
loops, each method proved equal to a function, and the promised properties proved of that function.

Seven things the code does not do, or does only under a condition, are stated as such:

- A link between two ports of one switch makes a root count one hop to itself; costs are path
  lengths if and only if there is no such link (`StpProgress.GroundedIffNoSelfLoop`).
- A data segment beginning with the bytes of `666-get` and a zero is taken for an acknowledgement, and
  so may one be that is only a beginning of these bytes, since the comparison goes on into the memory
  behind it. All runs that send a given stream are reliable, whatever lies in that memory, if and only
  if none of its chunks is of either kind (`TcpMarker.ReliableIffNoMarker`).
- A duplicated out-of-order segment stops delivery for good; delivery can go on if and only if the
  first queued block is not past (`TcpStall.DeliversMoreIffNotStuck`, `TcpStall.DuplicateSticks`).
- The sequence number of a database entry is set to 0 and never raised, so an older update replaces
  a newer one (`MospfDatabase.OlderReplaces`); the newest links are always stored if and only if each
  update is newer than all before, has number 0 or repeats what is stored
  (`MospfDatabase.AlwaysNewestIffHarmless`).
- A switch that is not root sends only in answer to a config that arrives. From every reachable state
  the shortest-path tree is attainable while what was sent can still arrive
  (`StpAttain.TreeAttainable`). With some configs lost for good the network can still settle if and
  only if, for every end that wins its link, the final vector is not among them or the other end
  stores it already (`StpLoss.SettlesIffUnhindered`).
- Leaf pushing frees a route when no leaf below its node takes it, although an expanded route fills
  further slots. No route is freed twice and no leaf keeps a freed one if and only if every freed
  route filled a single slot (`LeafFree.FreesSafeIff`, `LeafFree.SharedUnsafe`).
- An entry via a neighbour at address 0 is kept as if it were static. A second run changes nothing if
  and only if no entry with a gateway stands before one without (`MospfRerun.UpdateIdempotentIff`).

The comment above `buf_ack` (tcp_sock.c:543) says that blocks ending at or before the ack are
removed; the code removes blocks that start before it, and the model follows the code.

`dafny verify dfyconfig.toml` checks the project.

## Model

| member | source | states |
|---|---|---|
| `StpVector.Compare` | exp5- 生成树/code/stp.c:145-221 | the shared cascade of the three comparators is positive exactly when the first vector is lexicographically better, negative exactly when the second is; only 16 bits of a switch id and 8 of a port id count |
| `StpSwitch.BestPort` | exp5- 生成树/code/stp.c:248-252 | the root port is the first non-designated port that no other non-designated port beats; none exactly when all ports are designated |
| `StpSwitch.Configs` | exp5- 生成树/code/stp.c:99-107 | a switch sends its own vector, on every designated port and on no other |
| `StpSwitch.AcceptImproves` | exp5- 生成树/code/stp.c:233-300 | accepting a config never worsens (root, cost) or any port vector and improves the receiving port |
| `StpSwitch.AcceptConsistent` | exp5- 生成树/code/stp.c:233-286 | after an accepted config the switch is consistent again: root, cost and root port agree with the ports, designated ports show its own vector, the others beat it, and the hello timer runs exactly at a root |
| `StpSwitch.AcceptPorts` | exp5- 生成树/code/stp.c:265-279 | after an accepted config each port shows the own vector, the config (receiving port only) or what it showed before |
| `StpSwitch.ChangeIffBetter` | exp5- 生成树/code/stp.c:287-304 | a config changes a consistent switch if and only if it beats the vector stored on its port |
| `StpSwitch.NeverSilent` | exp5- 生成树/code/stp.c:72-78 | the guard of the sender never suppresses a config of a consistent switch |
| `StpSwitch.SilentIff` | exp5- 生成树/code/stp.c:72-78 | it would do so exactly for a switch that is neither root nor has a root port |
| `StpSwitch.ConfigsOnce` | exp5- 生成树/code/stp.c:99-107 | the configs leave once each in port order, exactly on the designated ports |
| `StpSwitch.HandleSends` | exp5- 生成树/code/stp.c:287-304 | a better config is answered on exactly the ports designated afterwards, any other one only on the port it came in by, with what the switch holds |
| `StpSwitch.HelloSends` | exp5- 生成树/code/stp.c:109-116 | on a hello timeout a root sends once on every port and no other switch sends |
| `StpVector.NumbersOfIds` | exp5- 生成树/code/stp.c:20-21 | what is above the low 16 bits of a switch id or the low 8 of a port id does not count |
| `StpSwitch.InitConsistent` | exp5- 生成树/code/stp.c:118-126 | a freshly started switch is consistent |
| `StpDevice.Device.constructor` | exp5- 生成树/code/stp.c:345-383 | the object starts in the initial state: own id as root at cost 0, every port designated |
| `StpDevice.Device.StoreConfig` | exp5- 生成树/code/stp.c:223-229 | one port is overwritten by the four fields of the config, nothing else changes |
| `StpDevice.Device.SelectRoot` | exp5- 生成树/code/stp.c:233-262 | the loop over ports finds the root port, and root and cost follow from it |
| `StpDevice.Device.RefreshPorts` | exp5- 生成树/code/stp.c:263-279 | the second loop refreshes each port in place as the specification says |
| `StpDevice.Device.Recompute` | exp5- 生成树/code/stp.c:233-286 | both loops together are the update function whose properties are proved above |
| `StpDevice.Device.SendPortConfig` | exp5- 生成树/code/stp.c:72-97 | what is sent on one port |
| `StpDevice.Device.SendConfigs` | exp5- 生成树/code/stp.c:99-107 | what is sent on all designated ports, in port order |
| `StpDevice.Device.HandleConfig` | exp5- 生成树/code/stp.c:287-304 | the in-place handler, with its timer side effect, is the reaction used in the network model |
| `StpDevice.Device.HelloTimeout` | exp5- 生成树/code/stp.c:109-116 | what a hello timeout sends |
| `StpNetwork.StepKeepsInv` | exp5- 生成树/code/stp.c:72-304 | every delivery (of any config ever sent, at any time, any number of times) and every hello keeps the global invariant: switches consistent, stored and travelling vectors past truths of the peer behind a simple path; no switch gets worse |
| `StpNetwork.ReachableInv` | exp5- 生成树/code/stp.c:72-304 | the invariant holds in every reachable state |
| `StpNetwork.SwitchesAreGrounded` | exp5- 生成树/code/stp.c:248-262 | each switch's (root, cost) is the exact length of a simple path from the switch with that id |
| `StpNetwork.StoredGrounds` | exp5- 生成树/code/stp.c:258-262 | taking root and cost + 1 from a stored vector extends its path, which cannot pass the switch itself |
| `StpProgress.EverythingGrounded` | exp5- 生成树/code/stp.c:72-277 | in every reachable state each (root, cost) held by a switch or port or carried by a config belongs to a real switch and to a simple path of exactly that length |
| `StpProgress.GroundedBounded` | exp5- 生成树/code/stp.c:72-277 | such a cost is below the number of switches |
| `StpProgress.GroundedIffNoSelfLoop` | exp5- 生成树/code/stp.c:224-303 | costs are lengths of simple paths in every reachable state if and only if no link joins two ports of one switch |
| `StpProgress.SelfLoopMiscounts` | exp5- 生成树/code/stp.c:224-303 | with such a link there is a reachable state in which the root counts one hop to itself |
| `StpProgress.NothingWorsens` | exp5- 生成树/code/stp.c:287-304 | no event of any reachable state worsens a switch's (root, cost) or any port vector |
| `StpProgress.ChangeLowersRank` | exp5- 生成树/code/stp.c:287-304 | an event that changes some switch lowers a measure summed over all ports |
| `StpProgress.FinitelyManyChanges` | exp5- 生成树/code/stp.c:287-304 | in any run, however long, at most P * 2N^2 events change a switch (N switches, P ports) |
| `StpConvergence.NeverBothBlocked` | exp5- 生成树/code/stp.c:224-303 | in every reachable state each link has a designated end |
| `StpConvergence.QuietIsStable` | exp5- 生成树/code/stp.c:287-304 | once every switch has spoken and every config sent has arrived at least once, delivering any current config changes nothing |
| `StpConvergence.StableLink` | exp5- 生成树/code/stp.c:224-303 | in a stable state exactly one end of a link is designated and the other stores its current vector |
| `StpConvergence.StableIsSettled` | exp5- 生成树/code/stp.c:224-303 | in a stable state roots agree across links, costs differ by at most one and a root port is one hop further than its peer |
| `StpConvergence.RootAgreement` | exp5- 生成树/code/stp.c:233-303 | all switches of a settled connected network name the smallest id as root |
| `StpConvergence.RootPathClimbs` | exp5- 生成树/code/stp.c:248-262 | following root ports lowers the cost by one each time and ends at a root after exactly cost steps |
| `StpConvergence.SettledIsShortestPathTree` | exp5- 生成树/code/stp.c:233-303 | root is the smallest id, cost the hop distance to it, and every switch but the root has a root port |
| `StpConvergence.RolesExact` | exp5- 生成树/code/stp.c:38-48 | the root role is that of the root port, the designated role that of designated ports, the third one that of all others |
| `StpConvergence.ForwardingIffRootLink` | exp5- 生成树/code/stp.c:38-48 | a settled link forwards exactly when one of its ends is a root port, and never are both |
| `StpConvergence.RootPortForwards` | exp5- 生成树/code/stp.c:38-48 | every switch but the root climbs over a forwarding link |
| `StpConvergence.NoForwardingLoop` | exp5- 生成树/code/stp.c:38-48 | forwarding links of a settled network contain no cycle |
| `StpConvergence.QuietRunsConverge` | exp5- 生成树/code/stp.c:72-304 | every run after which all configs have arrived ends in the shortest-path spanning tree to the smallest id |
| `StpAttain.QuietAttainable` | exp5- 生成树/code/stp.c:72-304 | from every reachable state some continuation has every switch speak and every config arrive |
| `StpAttain.EverythingArrives` | exp5- 生成树/code/stp.c:287-304 | delivering what has not been heard comes to an end: each delivery lowers the rank or leaves one config less to come |
| `StpAttain.TreeAttainable` | exp5- 生成树/code/stp.c:72-304 | from every reachable state of a connected network the shortest-path tree to the smallest id is attainable |
| `StpDistance.DistancesExist` | exp5- 生成树/code/stp.c:233-303 | a connected network has hop distances to the smallest id, with every distance the length of a walk and none shorter |
| `StpDistance.RightUpTo` | exp5- 生成树/code/stp.c:248-262 | once the final vectors of all switches closer than k have reached the ports they win, every switch up to distance k has the final root and cost |
| `StpDistance.AllAbsorbedStable` | exp5- 生成树/code/stp.c:287-304 | once all of them have, no current config changes anything any more |
| `StpLoss.StoredByRun` | exp5- 生成树/code/stp.c:223-229 | a port shows a vector of another switch only if it did at the start or exactly that config was delivered to it |
| `StpLoss.SettlesIffUnhindered` | exp5- 生成树/code/stp.c:72-304 | from any reachable state of a connected network, with any set of configs lost for good: some run without them ends in a stable state if and only if, for every end that wins its link in the tree, its final vector is not lost or its peer stores it already |
| `StpLoss.NewsLostUnsettles` | exp5- 生成树/code/stp.c:72-116 | three switches in a row: when the config that tells the last of them of the root is lost for good, no run settles |
| `Keys.KeyIsDigit` | exp7- 高效路由查找/code/ip.h:60-79 | the bits get_bits extracts for level i are digit i of the address |
| `Keys.MatchesIffCovers` | exp7- 高效路由查找/code/ip.h:81-83 | a route matches an address exactly when the address's path passes through one of the slots the route is expanded into |
| `Keys.NestedOrder` | exp7- 高效路由查找/code/ip.h:109-122 | of two routes matching one address route_cmp orders by mask length |
| `Keys.MaskOrder` | exp7- 高效路由查找/code/ip.h:27-29 | masks as numbers order like their lengths |
| `Keys.SlotsInsideNode` | exp7- 高效路由查找/code/multi.h:46-49 | the slots a route is expanded into never leave one node |
| `Slots.LastSlotIsScan` | exp7- 高效路由查找/code/multi.h:24-125 | the deepest filled slot on an address's path holds the route the linear scan picks, for every list and address |
| `Contents.ExpandedRepresents` | exp7- 高效路由查找/code/multi.h:24-57 | an insertion with prefix expansion leaves in each slot the first inserted route route_cmp puts on top |
| `Contents.KeptFirstRepresents` | exp7- 高效路由查找/code/naive.h:23-38 | the bitwise insertion does the same with a single slot, the first inserted route kept |
| `Contents.DeepestIsScan` | exp7- 高效路由查找/code/multi.h:107-125 | a trie of either width built from a list answers every address with the scan's route |
| `Contents.TriesAgree` | exp7- 高效路由查找/code/naive.h:54-70 | the bitwise and the 4-bit trie return the same route for every list and address |
| `Contents.HigherSlotLower` | exp7- 高效路由查找/code/advance.h:85-94 | of two filled slots on one path the higher one holds a route that compares lower |
| `Contents.HandedDownLoses` | exp7- 高效路由查找/code/advance.h:85-94 | a route handed down never beats the one a slot below keeps |
| `TrieHeap.Tree.AddChild` | exp7- 高效路由查找/code/multi.h:41-42 | linking a new node keeps the shape of the whole tree |
| `TrieHeap.Tree.WalkTo` | exp7- 高效路由查找/code/multi.h:39-44 | the walk that creates missing nodes reaches the node for the path and changes no slot |
| `NibbleTrie.InitKeys` | exp7- 高效路由查找/code/multi.h:33-36 | the loop that fills the keys yields the digits of the word |
| `NibbleTrie.NibbleSlots` | exp7- 高效路由查找/code/multi.h:26-47 | insert_deep, start_leaf and leaf_num as computed stay inside the arrays they index |
| `NibbleTrie.InsertRoute` | exp7- 高效路由查找/code/multi.h:24-57 | in-place insertion changes exactly the slots of the expansion |
| `NibbleTrie.LongestPrefixMatch` | exp7- 高效路由查找/code/multi.h:107-125 | remembering the last route met returns the deepest filled slot on the path |
| `NibbleTrie.CreateTree` | exp7- 高效路由查找/code/multi.h:127-144 | the tree built from a list is the insertions of its routes in order |
| `NibbleTrie.TreeTest` | exp7- 高效路由查找/code/multi.h:160-207 | every lookup in a built tree returns the linear scan's route |
| `BitTrie.InsertRoute` | exp7- 高效路由查找/code/naive.h:23-38 | in-place insertion fills one slot unless it is taken |
| `BitTrie.LongestPrefixMatch` | exp7- 高效路由查找/code/naive.h:54-70 | the last route met below the root is the deepest filled slot |
| `BitTrie.CreateTree` | exp7- 高效路由查找/code/naive.h:72-86 | the tree built from a list is the insertions of its routes in order |
| `BitTrie.TreeTest` | exp7- 高效路由查找/code/naive.h:88-125 | every lookup in a built tree returns the linear scan's route |
| `LeafFree.KeepsDeepest` | exp7- 高效路由查找/code/advance.h:74-98 | the comparison of leaf_push keeps or hands on the deepest route at or above the node |
| `LeafFree.PushingExact` | exp7- 高效路由查找/code/advance.h:59-105 | leaf_push returns true exactly when it was handed a route and a leaf below can be reached without meeting another filled slot; it frees the routes of exactly the covered slots: filled inner ones below which every way to a leaf meets another filled slot |
| `LeafFree.FreedExact` | exp7- 高效路由查找/code/advance.h:99-103 | over the whole tree, the same |
| `LeafFree.FreesSafeIff` | exp7- 高效路由查找/code/advance.h:99-103 | no route is freed twice and no leaf still refers to a freed route if and only if every freed route filled a single slot |
| `LeafFree.MultiplesOfFourSafe` | exp7- 高效路由查找/code/advance.h:99-103 | in particular with mask lengths that are multiples of 4 |
| `LeafFree.SharedUnsafe` | exp7- 高效路由查找/code/advance.h:99-103 | a /3 route whose first slot is covered by two /5 routes breaks it |
| `LeafPushTrie.BuiltTriesHandDown` | exp7- 高效路由查找/code/advance.h:135-138 | tries built by insertions meet what leaf_push relies on |
| `LeafPushTrie.PushIntoLeaf` | exp7- 高效路由查找/code/advance.h:73-80 | a leaf ends with the deepest route on its path |
| `LeafPushTrie.PushTurn` | exp7- 高效路由查找/code/advance.h:84-94 | one turn of the loop creates a missing child, pushes its subtree and leaves the children before and after it alone |
| `LeafPushTrie.PushChildren` | exp7- 高效路由查找/code/advance.h:82-100 | an inner node gets all sixteen children, each subtree pushed, the rest of the tree untouched; the flags and frees of the children are gathered |
| `LeafPushTrie.LeafPush` | exp7- 高效路由查找/code/advance.h:59-105 | after pushing, every node of the subtree has no or all children and every leaf keeps the deepest route on its path; the flag returned and the slots whose routes are freed are those `LeafFree.PushingExact` describes |
| `LeafPushTrie.DeepestNodeAnswers` | exp7- 高效路由查找/code/advance.h:107-123 | where a walk in a pushed tree stops, the node's own route is the answer |
| `LeafPushTrie.LongestPrefixMatch` | exp7- 高效路由查找/code/advance.h:107-123 | looking up the deepest node returns the same route as remembering the last one before pushing |
| `LeafPushTrie.CreatePushedTree` | exp7- 高效路由查找/code/advance.h:125-142 | building and pushing gives a fully pushed tree with the contents of the insertions |
| `LeafPushTrie.TreeTest` | exp7- 高效路由查找/code/advance.h:158-207 | every lookup in a pushed tree returns the linear scan's route |
| `MospfForwarding.LongestPrefixMatch` | exp10- ospf网络路由实验2-最短路径路由/code/ip.c:33-45 | the loop over the forwarding list computes the scan, for any mask words |
| `MospfForwarding.SelectedIsFirstGreatest` | exp10- ospf网络路由实验2-最短路径路由/code/ip.c:33-45 | the scan returns the first match among those with the greatest mask word, or nothing exactly when nothing matches |
| `MospfForwarding.ForwardsByBestRoute` | exp10- ospf网络路由实验2-最短路径路由/code/mospf_daemon.c:500-516 | after a rebuild a packet leaves by a kept entry or by one for a network of a nearest advertiser, to the neighbour and over the interface where a shortest way to it starts |
| `LinearScan.ScanIsFirstLongest` | exp10- ospf网络路由实验2-最短路径路由/code/ip.c:33-45 | the scan returns the first match among those with the longest mask, or nothing exactly when nothing matches |
| `LinearScan.OrderIrrelevant` | exp10- ospf网络路由实验2-最短路径路由/code/ip.c:33-45 | with distinct prefixes the answer depends only on which routes are in the list |
| `MospfGraph.Find` | exp10- ospf网络路由实验2-最短路径路由/code/mospf_daemon.c:400-411 | the first entry with the router id, or none exactly when there is none |
| `MospfGraph.Nearest` | exp10- ospf网络路由实验2-最短路径路由/code/mospf_daemon.c:414-424 | an unjoined node of least finite cost, or none exactly when no unjoined node is reachable |
| `MospfPaths.FirstRoundInv` | exp10- ospf网络路由实验2-最短路径路由/code/mospf_daemon.c:454-477 | the first round establishes the loop invariant: costs are path lengths through the recorded gateway |
| `MospfPaths.SettleIsTurn` | exp10- ospf网络路由实验2-最短路径路由/code/mospf_daemon.c:481-498 | a turn joins the nearest node and relaxes its links; no joined node changes although the relaxation does not look at joined |
| `MospfPaths.TurnKeepsInv` | exp10- ospf网络路由实验2-最短路径路由/code/mospf_daemon.c:481-498 | a turn keeps the invariant |
| `MospfPaths.SelectKeepsInv` | exp10- ospf网络路由实验2-最短路径路由/code/mospf_daemon.c:478-499 | settled nodes keep cost, gateway and interface to the end and settle order only grows |
| `MospfPaths.ShortestPathsCorrect` | exp10- ospf网络路由实验2-最短路径路由/code/mospf_daemon.c:441-499 | each cost is the least hop count, the maximum value exactly when unreachable; gateway and interface start a shortest path; reachable nodes settle once each by non-decreasing cost |
| `MospfHops.EveryNbrOnce` | exp10- ospf网络路由实验2-最短路径路由/code/mospf_daemon.c:467-468 | the two nested loops meet every neighbour of every interface once, in order, and nothing else |
| `MospfHops.NbrForIsLast` | exp10- ospf网络路由实验2-最短路径路由/code/mospf_daemon.c:469-475 | what the first round leaves at a router is the last neighbour that has its id |
| `MospfHops.CostsAreHops` | exp10- ospf网络路由实验2-最短路径路由/code/mospf_daemon.c:441-499 | over the interfaces alone: a router that some interface names costs 1, with the address and interface of the last such entry; every other cost counts the hops of a shortest way from those, gateway and interface being where such a way starts; the maximum value stands for no way |
| `MospfTable.AddAllRebuilt` | exp10- ospf网络路由实验2-最短路径路由/code/mospf_daemon.c:500-516 | the added entries are, per network number not in the list, the first advertisement of it in settle order |
| `MospfTable.FirstAdvertIsLeastCost` | exp10- ospf网络路由实验2-最短路径路由/code/mospf_daemon.c:500-516 | that first advertisement comes from a router of least cost |
| `MospfTable.UpdateCorrect` | exp10- ospf网络路由实验2-最短路径路由/code/mospf_daemon.c:391-436 | entries with gateway 0 stay; every other network number a reachable router advertises has exactly one entry, via a least-cost advertiser; there are no others |
| `MospfHops.UpdatedByHops` | exp10- ospf网络路由实验2-最短路径路由/code/mospf_daemon.c:391-518 | over the interfaces and the database alone: behind the entries with gateway 0, every network number that a router in reach advertises has exactly one entry unless it was there; it has destination and mask of a link of a nearest advertiser and the address and interface of the neighbour where a shortest way to that router starts |
| `MospfTable.UpdateIdempotent` | exp10- ospf网络路由实验2-最短路径路由/code/mospf_daemon.c:441-518 | with no neighbour at address 0 a second run changes nothing |
| `MospfRerun.UpdateTwice` | exp10- ospf网络路由实验2-最短路径路由/code/mospf_daemon.c:391-518 | for any neighbour addresses a second run keeps the entries without gateway in front, those the first run added among them, and puts the other added ones behind, in the same order |
| `MospfRerun.UpdateIdempotentIff` | exp10- ospf网络路由实验2-最短路径路由/code/mospf_daemon.c:391-518 | a second run changes nothing if and only if no entry with a gateway stands before one without; it never gains or loses an entry |
| `MospfTable.GatewayIsNbr` | exp10- ospf网络路由实验2-最短路径路由/code/mospf_daemon.c:467-477 | a reachable node's gateway is a neighbour's address |
| `MospfDatabase.DatabaseWellKept` | exp10- ospf网络路由实验2-最短路径路由/code/mospf_daemon.c:545-583 | after any updates there is at most one entry per router and none for the router itself |
| `MospfDatabase.FindUnique` | exp10- ospf网络路由实验2-最短路径路由/code/mospf_daemon.c:400-411 | in such a database looking a router up finds its entry wherever it is |
| `MospfDatabase.DatabaseContents` | exp10- ospf网络路由实验2-最短路径路由/code/mospf_daemon.c:551-583 | what any sequence of updates leaves stored for a router: its first links, replaced by each later update with a non-zero number, newer or not |
| `MospfDatabase.OlderReplaces` | exp10- ospf网络路由实验2-最短路径路由/code/mospf_daemon.c:551-583 | an update with a smaller non-zero number replaces the links of one with a greater number |
| `MospfDatabase.StaysNewestIffHarmless` | exp10- ospf网络路由实验2-最短路径路由/code/mospf_daemon.c:551-583 | an update leaves the newest links stored if and only if it is newer than all before, has number 0, or says what is stored already |
| `MospfDatabase.AlwaysNewestIffHarmless` | exp10- ospf网络路由实验2-最短路径路由/code/mospf_daemon.c:551-583 | over any sequence of updates the database always stores the newest links of a router if and only if each of its updates was of that kind |
| `MospfDatabase.NewestIsGreatest` | exp10- ospf网络路由实验2-最短路径路由/code/mospf_daemon.c:551-557 | the newest links meant there are those of the first update with the greatest number |
| `MospfRouter.Router.FindNode` | exp10- ospf网络路由实验2-最短路径路由/code/mospf_daemon.c:400-411 | the loop returns the first entry with the id |
| `MospfRouter.Router.FindNodeNearest` | exp10- ospf网络路由实验2-最短路径路由/code/mospf_daemon.c:414-424 | the loop returns the nearest unjoined node |
| `MospfRouter.Router.RouterExist` | exp10- ospf网络路由实验2-最短路径路由/code/mospf_daemon.c:426-436 | true exactly when some entry has the network number |
| `MospfRouter.Router.DeleteDynamicRouters` | exp10- ospf网络路由实验2-最短路径路由/code/mospf_daemon.c:391-398 | exactly the entries with gateway 0 remain, in order |
| `MospfRouter.Router.FirstHops` | exp10- ospf网络路由实验2-最短路径路由/code/mospf_daemon.c:463-477 | the two nested loops over interfaces and neighbours compute the first round |
| `MospfRouter.Router.RelaxLinks` | exp10- ospf网络路由实验2-最短路径路由/code/mospf_daemon.c:487-498 | the inner loop relaxes the links of one node in place |
| `MospfRouter.Router.SelectionLoop` | exp10- ospf网络路由实验2-最短路径路由/code/mospf_daemon.c:478-499 | the loop over the node array computes the selection and ends, the number of unjoined nodes falling |
| `MospfRouter.Router.FillTable` | exp10- ospf网络路由实验2-最短路径路由/code/mospf_daemon.c:502-516 | the last loops append the advertisements that are new |
| `MospfRouter.Router.RouterUpdate` | exp10- ospf网络路由实验2-最短路径路由/code/mospf_daemon.c:441-518 | the whole method computes the function whose correctness is proved above, and leaves a list as `MospfHops.UpdatedByHops` says |
| `MospfRouter.FloodExact` | exp10- ospf网络路由实验2-最短路径路由/code/mospf_daemon.c:588-615 | nothing is sent when the 8-bit ttl comes down to 0; else each address gets, by each interface but the one the update came in by, as many copies as that interface lists neighbours with it |
| `MospfRouter.Router.Flood` | exp10- ospf网络路由实验2-最短路径路由/code/mospf_daemon.c:588-615 | the nested loops send exactly those copies |
| `MospfRouter.Router.HandleLsu` | exp10- ospf网络路由实验2-最短路径路由/code/mospf_daemon.c:521-621 | an update changes the database as specified, is flooded to exactly those neighbours and leads to a forwarding list by nearest advertisers, except for the router's own |
| `SeqNum.CompareOffsets` | exp13- 网络传输实验2-有丢包的数据收发（滑动窗口）/code/include/tcp.h:10-13 | the comparison macros order 32-bit numbers like the stream positions they stand for, up to 2^31 apart |
| `RingBuffer.Ring.constructor` | exp13- 网络传输实验2-有丢包的数据收发（滑动窗口）/code/include/ring_buffer.h:17-27 | a new buffer is empty |
| `RingBuffer.Ring.Used` | exp13- 网络传输实验2-有丢包的数据收发（滑动窗口）/code/include/ring_buffer.h:34-37 | used is below size and tells tail from head |
| `RingBuffer.Ring.Free` | exp13- 网络传输实验2-有丢包的数据收发（滑动窗口）/code/include/ring_buffer.h:39-43 | used plus free is always size - 1 |
| `RingBuffer.Ring.Read` | exp13- 网络传输实验2-有丢包的数据收发（滑动窗口）/code/include/ring_buffer.h:59-78 | a read takes the oldest bytes, as many as asked for and present, and leaves the rest in order |
| `RingBuffer.Ring.Write` | exp13- 网络传输实验2-有丢包的数据收发（滑动窗口）/code/include/ring_buffer.h:81-100 | a write appends its bytes behind those present, across the wrap |
| `RingBuffer.UnrolledDrop` | exp13- 网络传输实验2-有丢包的数据收发（滑动窗口）/code/include/ring_buffer.h:64-74 | moving the head drops exactly the oldest bytes |
| `RingBuffer.UnrolledAppend` | exp13- 网络传输实验2-有丢包的数据收发（滑动窗口）/code/include/ring_buffer.h:87-97 | filling behind the tail, round the end if need be, appends |
| `TcpState.MayBeGetExact` | exp13- 网络传输实验2-有丢包的数据收发（滑动窗口）/code/tcp_in.c:276-276 | a payload can be taken for the marker, for some memory behind it, exactly when it begins with `666-get` and its zero or is a beginning of that |
| `TcpState.KeptShorter` | exp13- 网络传输实验2-有丢包的数据收发（滑动窗口）/code/tcp_sock.c:544-566 | acknowledging never makes the buffered length grow |
| `TcpState.EnqueueAdds` | exp13- 网络传输实验2-有丢包的数据收发（滑动窗口）/code/tcp_sock.c:573-597 | the queue gains exactly the new block |
| `TcpSocket.SendSocket.AppendPacket` | exp13- 网络传输实验2-有丢包的数据收发（滑动窗口）/code/tcp_sock.c:529-541 | the block goes to the end and the size grows by its payload |
| `TcpSocket.SendSocket.SendData` | exp13- 网络传输实验2-有丢包的数据收发（滑动窗口）/code/tcp_out.c:32-145 | one segment leaves, its copy is buffered and snd_nxt moves past it |
| `TcpSocket.SendSocket.BufAck` | exp13- 网络传输实验2-有丢包的数据收发（滑动窗口）/code/tcp_sock.c:544-566 | the loop removes exactly the blocks that start before the ack and subtracts their lengths |
| `TcpSocket.SendSocket.HandleAck` | exp13- 网络传输实验2-有丢包的数据收发（滑动窗口）/code/tcp_in.c:276-285 | the acknowledgement branch on the sending side |
| `TcpSocket.SendSocket.RetransmitFirst` | exp13- 网络传输实验2-有丢包的数据收发（滑动窗口）/code/tcp_sock.c:511-526 | the oldest block again, with the current ack number |
| `TcpSocket.SendSocket.TakeAcks` | exp13- 网络传输实验2-有丢包的数据收发（滑动窗口）/code/tcp_in.c:276-285 | any acknowledgements that arrive in a row are handled in order |
| `TcpSocket.SendSocket.AwaitRoom` | exp13- 网络传输实验2-有丢包的数据收发（滑动窗口）/code/tcp_sock.c:458-463 | the wait takes acknowledgements only while the next piece does not fit the window, and ends with room for it, or for good while it does not fit |
| `TcpSocket.SendSocket.AwaitEmpty` | exp13- 网络传输实验2-有丢包的数据收发（滑动窗口）/code/tcp_sock.c:468-471 | the wait takes acknowledgements only while something is unacknowledged, and ends with nothing, or for good while there is something |
| `TcpWrite.AcksShrink` | exp13- 网络传输实验2-有丢包的数据收发（滑动窗口）/code/tcp_sock.c:544-566 | acknowledgements keep the size equal to the buffered length and never raise it |
| `TcpWrite.AcksInTurn` | exp13- 网络传输实验2-有丢包的数据收发（滑动窗口）/code/tcp_in.c:276-285 | acknowledgements in a row act one after the other |
| `TcpWrite.SecondBatchWaited` | exp13- 网络传输实验2-有丢包的数据收发（滑动窗口）/code/tcp_sock.c:455-471 | of two batches of acknowledgements in a row the second comes only while the next piece does not fit the window or, with everything sent, something is unacknowledged |
| `TcpWrite.Throughout` | exp13- 网络传输实验2-有丢包的数据收发（滑动窗口）/code/tcp_sock.c:450-474 | through any sends within the window and any acks the size equals the buffered length after each of them, and under a fixed window never exceeds it |
| `TcpWrite.CutIsProper` | exp13- 网络传输实验2-有丢包的数据收发（滑动窗口）/code/tcp_sock.c:455-467 | all pieces but the last are 1024 bytes, none is empty |
| `TcpSocket.SendSocket.WriteChunk` | exp13- 网络传输实验2-有丢包的数据收发（滑动窗口）/code/tcp_sock.c:455-467 | one turn of the sending loop takes the acks that arrive, waits for room and sends the next piece |
| `TcpSocket.SendSocket.SendPieces` | exp13- 网络传输实验2-有丢包的数据收发（滑动窗口）/code/tcp_sock.c:455-467 | the first loop sends all pieces, or stops for good where the next one does not fit the window |
| `TcpSocket.SendSocket.Write` | exp13- 网络传输实验2-有丢包的数据收发（滑动窗口）/code/tcp_sock.c:450-474 | whatever acks arrive at its turns: the acks taken are the first ones given, in order, all of them if it gives up; the chunks sent are the 1024-byte pieces of the buffer in order, each sent with room in the window; after every turn the size is the buffered length and under a fixed window within it; acknowledgements are taken only before a piece or while it has to sleep; on success everything is sent and acknowledged; it gives up only while the next piece does not fit the window or, with everything sent, something is unacknowledged |
| `TcpSocket.ReceiveSocket.PlaceFor` | exp13- 网络传输实验2-有丢包的数据收发（滑动窗口）/code/tcp_sock.c:586-593 | the search stops before the first block with a greater number |
| `TcpSocket.ReceiveSocket.Enqueue` | exp13- 网络传输实验2-有丢包的数据收发（滑动窗口）/code/tcp_sock.c:573-597 | in-place insertion before the first block with a greater number |
| `TcpSocket.ReceiveSocket.Dequeue` | exp13- 网络传输实验2-有丢包的数据收发（滑动窗口）/code/tcp_sock.c:600-634 | the loop moves blocks to the ring until a gap, a past block or lack of room |
| `TcpSocket.ReceiveSocket.DequeueAndAnswer` | exp13- 网络传输实验2-有丢包的数据收发（滑动窗口）/code/tcp_in.c:193-197 | dequeue, then send and buffer the 666-get, unless the handler falls asleep first |
| `TcpSocket.ReceiveSocket.RecvData` | exp13- 网络传输实验2-有丢包的数据收发（滑动窗口）/code/tcp_in.c:165-198 | an old segment is dropped without an acknowledgement, any other is queued and answered |
| `TcpSocket.ReceiveSocket.ProcessPacket` | exp13- 网络传输实验2-有丢包的数据收发（滑动窗口）/code/tcp_in.c:275-291 | the established-state choice between acknowledgement, with its window and buffer updates, and data; the comparison with the marker goes on into the memory behind the payload |
| `TcpSocket.ReceiveSocket.SockRead` | exp13- 网络传输实验2-有丢包的数据收发（滑动窗口）/code/tcp_sock.c:433-445 | a read returns the oldest bytes of the ring, as many as asked for and present, and removes them |
| `TcpStream.SeqCompare` | exp13- 网络传输实验2-有丢包的数据收发（滑动窗口）/code/include/tcp.h:10-13 | sequence numbers of chunks at most 2^31 bytes apart compare like the chunk numbers |
| `TcpStream.KeptRange` | exp13- 网络传输实验2-有丢包的数据收发（滑动窗口）/code/tcp_sock.c:544-566 | an ack on a chunk boundary drops exactly the chunks before it, across wrap-around |
| `TcpStream.EnqueueByIndex` | exp13- 网络传输实验2-有丢包的数据收发（滑动窗口）/code/tcp_sock.c:573-597 | insertion by sequence number is insertion by chunk number |
| `TcpStream.InsertIndexSorted` | exp13- 网络传输实验2-有丢包的数据收发（滑动窗口）/code/tcp_sock.c:586-596 | insertion keeps the queue sorted |
| `TcpStream.RunIsMaximal` | exp13- 网络传输实验2-有丢包的数据收发（滑动窗口）/code/tcp_sock.c:600-634 | the run delivered ends only at the end of the queue, before a gap or duplicate, or before a chunk without room |
| `TcpStream.DequeueByIndex` | exp13- 网络传输实验2-有丢包的数据收发（滑动窗口）/code/tcp_sock.c:600-634 | dequeueing delivers exactly that run, and sleeps only for lack of room |
| `TcpRun.StepKeepsInv` | exp13- 网络传输实验2-有丢包的数据收发（滑动窗口）/code/tcp_in.c:165-291 | every event keeps the invariant: sends, retransmissions, arrivals of any packet ever sent in any order, wake-ups, reads, acks |
| `TcpRun.QueueIsSorted` | exp13- 网络传输实验2-有丢包的数据收发（滑动窗口）/code/tcp_sock.c:573-597 | the out-of-order queue is sorted by sequence number across wrap-around |
| `TcpRun.RunsAreReliable` | exp13- 网络传输实验2-有丢包的数据收发（滑动窗口）/code/tcp_sock.c:433-634 | in every run with loss, duplication and reordering, bytes read plus bytes in the ring are the written stream up to rcv_nxt, and the sender still buffers everything after that |
| `TcpAnswers.AnswerAddsOne` | exp13- 网络传输实验2-有丢包的数据收发（滑动窗口）/code/tcp_in.c:193-197 | an answer is one segment with the number snd_nxt and the ack rcv_nxt, buffered once and counted with its eight bytes, snd_nxt moving past it; or the handler sleeps and keeps what it has to answer |
| `TcpAnswers.AnswerTakesLater` | exp13- 网络传输实验2-有丢包的数据收发（滑动窗口）/code/tcp_in.c:194-194 | snd_una becomes the later of the two stream positions, up to 2^31 apart |
| `TcpAnswers.WakeTakesLater` | exp13- 网络传输实验2-有丢包的数据收发（滑动窗口）/code/tcp_in.c:193-197 | a handler that slept goes on with the number its segment brought |
| `TcpAnswers.AnsweredOnce` | exp13- 网络传输实验2-有丢包的数据收发（滑动窗口）/code/tcp_in.c:188-197 | in every run a segment that is not old, and a handler that wakes up, are answered by exactly one acknowledgement unless it falls asleep; an old segment is not |
| `TcpAnswers.AnswersNumbered` | exp13- 网络传输实验2-有丢包的数据收发（滑动窗口）/code/tcp_in.c:165-291 | in every run the k-th acknowledgement has the number 8k behind the first and is still buffered, snd_nxt and the size count them, every acknowledgement on its way has such a number, and what the sender expects and acknowledges comes from one |
| `TcpAnswers.AckSetsWindow` | exp13- 网络传输实验2-有丢包的数据收发（滑动窗口）/code/tcp_in.c:276-280 | an acknowledgement sets snd_una, and the window if it acknowledges nothing that was not sent, in stream positions |
| `TcpAnswers.AckTaken` | exp13- 网络传输实验2-有丢包的数据收发（滑动窗口）/code/tcp_in.c:276-280 | in every run an acknowledgement up to a chunk makes that the first unacknowledged one and its window the current one |
| `TcpMarker.MarkerBreaks` | exp13- 网络传输实验2-有丢包的数据收发（滑动窗口）/code/tcp_in.c:276-278 | from any point with the handler awake, a data segment that with the memory behind it begins with the acknowledgement marker is dropped and rcv_nxt moves to a number nothing delivered accounts for |
| `TcpMarker.MarkerDecides` | exp13- 网络传输实验2-有丢包的数据收发（滑动窗口）/code/tcp_in.c:276-290 | from any such point one more chunk sent and arriving is reliable, whatever lies behind it in memory, if and only if it neither begins with the marker nor is a beginning of it |
| `TcpMarker.ReliableIffNoMarker` | exp13- 网络传输实验2-有丢包的数据收发（滑动窗口）/code/tcp_in.c:165-291 | for every stream cut into chunks: all runs that send it, with any loss, duplication and reordering, whatever lies in memory behind the payloads, are reliable if and only if no chunk begins with the marker or is a beginning of it |
| `TcpMarker.WriteReliableIff` | exp13- 网络传输实验2-有丢包的数据收发（滑动窗口）/code/tcp_sock.c:450-474 | the same for the 1024-byte pieces of a buffer given to tcp_sock_write |
| `TcpMarker.ChunksThrough` | exp13- 网络传输实验2-有丢包的数据收发（滑动窗口）/code/tcp_sock.c:433-634 | any chunks that cannot be taken for the marker can be sent, delivered, read and acknowledged one after the other |
| `TcpStall.StuckForever` | exp13- 网络传输实验2-有丢包的数据收发（滑动窗口）/code/tcp_sock.c:626-631 | once the first queued block is past, no run delivers another byte |
| `TcpStall.DeliversMoreIffNotStuck` | exp13- 网络传输实验2-有丢包的数据收发（滑动窗口）/code/tcp_sock.c:600-634 | from any reachable state with bytes outstanding, some continuation delivers more if and only if the first queued block is not past |
| `TcpStall.DuplicateSticks` | exp13- 网络传输实验2-有丢包的数据收发（滑动窗口）/code/tcp_sock.c:573-631 | an out-of-order segment that arrives twice leaves the receiver in that state |
| `MacRecords.RunRefinesMap` | exp4- switch交换机/code/mac.c:38-157 | after any lookups, insertions and sweeps the chains hold one entry per address, in its own bucket, and stand for the map the same operations give; lookups answer from it |
| `MacRecords.LookUpAsMap` | exp4- switch交换机/code/mac.c:38-55 | a lookup answers what is known and renews only that address |
| `MacRecords.InsertAsMap` | exp4- switch交换机/code/mac.c:57-96 | an insertion learns an unknown address and renews a known one without changing its interface |
| `MacRecords.SweepAsMap` | exp4- switch交换机/code/mac.c:127-152 | a sweep forgets exactly the addresses not visited within the timeout |
| `MacRecords.InsertKeepsPlaces` | exp4- switch交换机/code/mac.c:62-94 | an insertion moves no known address and puts an unknown one last |
| `MacRecords.IndexOf` | exp4- switch交换机/code/mac.c:45-51 | the walk stops at the first entry with the address |
| `MacRecords.Bucket` | exp4- switch交换机/code/hash.c:4-12 | hash8 is a bucket number |
| `MacRecords.Hash8` | exp4- switch交换机/code/hash.c:4-12 | the loop from the last byte down computes it |
| `MacRecords.BucketIsXor` | exp4- switch交换机/code/hash.c:4-12 | hash8 is 0 for zeros and changing any byte by x changes it by x: it is the exclusive or of all bytes |
| `MacHeap.Chain.Find` | exp4- switch交换机/code/mac.c:76-85 | the pointer walk ends at the entry, or past the end with tail on the last one |
| `MacHeap.Chain.Lookup` | exp4- switch交换机/code/mac.c:43-54 | marks the found entry and returns its interface |
| `MacHeap.Chain.InsertPort` | exp4- switch交换机/code/mac.c:62-94 | marks a known entry or links a new one at the end of an acyclic chain |
| `MacHeap.Chain.Unlink` | exp4- switch交换机/code/mac.c:133-143 | unlinking one entry, first or not, leaves the chain without it |
| `MacHeap.Chain.SweepAged` | exp4- switch交换机/code/mac.c:128-151 | the in-place pass keeps exactly the entries younger than the timeout, in order, on an acyclic chain |
| `MacHeap.Table.constructor` | exp4- switch交换机/code/mac.c:7-10 | the table starts with 256 empty chains |
| `MacHeap.Table.LookupPort` | exp4- switch交换机/code/mac.c:38-55 | the heap operation is the lookup step of the refined table |
| `MacHeap.Table.InsertMacPort` | exp4- switch交换机/code/mac.c:57-96 | the heap operation is the insertion step, other chains untouched |
| `MacHeap.Table.SweepEntries` | exp4- switch交换机/code/mac.c:127-152 | one pass over all chains is the sweep step |

## Left out

Spanning tree:

- Packet formats, byte order, timers other than the hello timer, topology change notification, locks and threads.
- StpNetwork.ReachableInv: ids differ in their low 16 bits, links join two different switches, and there are at most 32 ports, as the comparison and the port array need; shared media are not modelled.
- StpConvergence.QuietRunsConverge: assumes that every config sent has arrived; `StpAttain.TreeAttainable` shows that this can still happen from every reachable state, but nothing forces it to, and `StpLoss.SettlesIffUnhindered` says which losses rule it out.
- StpProgress.FinitelyManyChanges: bounds the events that change a switch, not the configs exchanged, which never cease.
- Costs are unbounded numbers; `StpProgress.GroundedBounded` shows that they stay below the number of switches, so 32 bits do not wrap.

Tries:

- Bit operators are modelled by division and remainder on numbers below 2^32.
- Mask length 0 in the tries: mask() would shift by 32 and the 4-bit trie would index before its key array.
- LeafPushTrie.TreeTest: a freed route is taken to be intact as long as leaves refer to it; `LeafFree.FreesSafeIff` says when none does. Freed places are a ghost result, `free` itself is not part of this model.
- LinearScan.ScanIsFirstLongest: the scan the tries are compared with takes masks that are a run of leading ones, given by their length; `MospfForwarding.LongestPrefixMatch` takes any mask word.
- Reading and writing files, timing, sizes, failing allocation.

Route computation:

- Hello messages, neighbour and database ageing, checksums, packet formats, byte order, locks.
- MospfTable.UpdateIdempotent: assumes that no neighbour has address 0; `MospfRerun.UpdateIdempotentIff` does not.
- MospfRouter.Router.RouterUpdate: fewer than 2^31 routers in the database, as the int that counts them needs.
- MospfRouter.Router.HandleLsu: says to whom copies go, not how their headers are filled in.

Byte stream:

- Handshake, teardown, reset, listening sockets, checksums, packet headers, locks, interrupted sleeps, the retransmission limit and what happens when it is reached.
- TcpRun.RunsAreReliable: packets arrive at most 2^31 bytes old, and no empty acknowledgement reaches the receiving end.
- TcpState.KeptShorter: signed 32-bit subtraction that overflows is taken to wrap.
- TcpStall.DeliversMoreIffNotStuck: says what can happen next; that it does happen depends on timers and on the channel.
- TcpSocket.SendSocket.Write: acks arrive between the turns of its loops, not in the middle of one.

MAC table:

- The lock, the sweeping thread and its sleep, `free`, dumping and destroying the table.
- MacHeap.Chain.SweepAged: the clock's readings are given per address, one for each entry the pass looks at.

Other parts:

- exp2, exp3, exp6, exp8 (address translation), exp9, exp11, exp12 and the ARP cache: plumbing, duplicates, or without a property that holds in general.
