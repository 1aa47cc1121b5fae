# Distft: routing table, lookups, chunk storage and files, verified

Distft is a Kademlia-style distributed hash table with a file store on top. This
project models its four layers in Dafny and proves what each promises, from the
single bit comparison up to the client's commands.

1. **Routing table** (`Keys`, `Tries`, `Queries`, `Paths`, `Routers`, `Runs`,
   `Splits`, `Starvation`). `Routers` is the mutable, parent-linked tree of `router.cpp`:
   nodes with a leaf flag, split index, subtree count, parent, children and
   bucket, changed in place by loops that walk down bits and back up through
   `parent`. Its ghost field `model` is an immutable trie (`Tries`), and `Valid`
   says that every node of the heap is exactly the corresponding node of that
   trie, parent links and counts included. Each method is proved equal to a
   function on tries; about those functions come the structural invariant, the
   pigeonhole depth bound, refinement of a plain map, recency order over whole
   histories, which leaves split, and nearest-peer queries.
2. **Iterative lookup** (`Lookups`, `LookupFacts`, `RoundFacts`, `Convergence`,
   `Tables`, `Networks`, `Calls`, `Sessions`). The loops of `session.cpp` are methods of
   `Sessions.Session`, which change the routing table as they go and are proved equal
   to the functions of `Lookups`, and leave the table that the calls to the peers asked
   make of it. About the lookup come whom each round asks and when it may stop, global
   top-K, termination without the cap, honesty of found values, and convergence to the
   nearest node within `KEYBITS` rounds; about the calls (`Calls`), whom they bring into
   the table and whom they drop. `Tables` and `Networks` derive the hypotheses of
   convergence from the routing tables of layer 1.
3. **Chunk storage** (`Retrieval`, `Protocol`, `Replicas`, and `Sessions` again).
   `Retrieval` is end to end: a value set anywhere is read back everywhere exactly if no
   stale copy is out of reach. `Protocol` interleaves `StoreInit`, `Store`, publish,
   republish, departure and loss in any order, and `Replicas` shows that the one-step
   publishes of `Retrieval` are runs of it.
4. **Files** (`Codec`, `Files`, `Readings`, `Labels`, `Commands`, `Catalogs`,
   `Reports`, `Indexes`, `Backing`, `Deployments`). Chunking, content addressing, metadata and index framing, the
   client's store, load and list commands, and exactly when whole runs of commands are
   right. The file layer runs on one chunk store, in which an unforced set over
   something else may or may not take effect; its results hold for every choice. (In
   the network such a set shows its publisher the new bytes and other nodes the old.)
   `Backing` says exactly when the network is such a store, and `Deployments` carries
   that to runs of commands whose every read and set goes through some session.

A SHA-1 key is any function `hash` from byte strings to keys. No function into a
finite set of keys is injective on all byte strings, so results that need it
assume only that the byte strings at hand do not collide (`Files.CollisionFree`).
Distances are numbers: `Keys.Less` and `Keys.AtLeast` prove that the two
comparison loops are numeric order. A key is written most significant bit first.

## Where the code and its comments disagree

- **Spill-over of the nearest-peer query** (`src/dht/router.cpp:207-208`). The
  test and the remaining count are the wrong way round for "add (potentially)
  remaining keys from the mismatched tree". `Queries.Closest` is the code,
  `Queries.Nearest` the comment. `NearestIsRight` proves that the documented query
  always meets its promise; `ClosestIsRightExactly` says for every table, key and
  count when the code does: if and only if nothing spills over and the leaf of the
  search key alone can answer. `Starvation.TwentyPeersAnswerNobody` is a reachable
  table of 20 peers that answers a query for 20 with nobody. The methods of
  `Routers` and `Sessions` run the query as written. For lookups this means that good
  tables suffice only with the documented query (`Retrieval.CompleteNetworkReadsBack`).
  With the query as written each table that answers must also point on at the time
  (`Networks.PointsToNearest`), for which a non-empty leaf of the key is enough
  (`AsWrittenReadsBack`); `Tables.QueryLeadsExactly` is the exact condition on a table
  and `Starvation.StarvedNetworkThrows` a network of complete tables in which a publish
  throws. Calls change tables: those of network nodes keep a table complete
  (`Networks.CallsKeepGood`), but one call can split the full leaf of a key and leave it
  empty (`Starvation.UpdateEmptiesTheLeaf`).
- **Split rule** (`src/dht/router.cpp:62-64`). The comment lets a leaf split if its
  prefix matches self's, which would keep every split node on self's path; the code
  compares the one bit at the leaf's depth. `Splits.RunStaysOnPathExactly` says of every
  history when the comment's shape is kept: if and only if no insertion finds, off self's
  path, a full leaf without the new key at whose bit the new key and self agree.
  `Starvation.FarLeafSplits` is a history that ends in such a split.
- **Republish and publish** (`src/dht/session.cpp:120`). The comparison `<=`
  together with the truncation in `node_lookup` means that the local copy is
  always kept; the branch that deletes the chunk is never taken.
- **Empty start of a lookup** (`src/dht/session.cpp:299`). `closest_peers.at(0)`
  throws exactly when the router answers with nobody (`LookupThrowsExactly`); a
  republish pass that hits this loses the chunk it had erased (`Session.Republish`,
  `Protocol.Throw`). No code catches the exception, so the process ends with it.
- **Names and chunks are hashed alike** (`src/client/file.cpp:10`, `:98`, `:112`), so
  a chunk that spells a file's name, its own or another's, or "index", meets it at one
  key. `Labels.FilesRoundTripExactly` says when written files read back in every
  outcome: if and only if no name of one is a chunk of one.
  `Indexes.RunIsRightExactly` says the same of whole runs of commands, files named
  `index` included, and `ListingGrowsExactly` what one such file does to the listing.

## Model

| member | source | states |
|---|---|---|
| Keys.Less | src/utils/utils.cpp:48-57 | the loop from the top bit down is exactly numeric `<` of the XOR values |
| Keys.AtLeast | src/utils/utils.cpp:59-68 | its twin is exactly numeric `>=`, so the negation of `<` |
| Keys.DistOrder | src/utils/utils.h:31-33 | of two different keys the one matching the search key at their first difference is closer; there are no ties |
| Keys.DistInjective | src/utils/utils.h:59-67 | distances from a fixed key are equal only for equal keys, so sorting by the comparator has one result |
| Keys.Triangle | src/utils/utils.h:31-33 | the XOR metric satisfies the numeric triangle inequality |
| Keys.Sandwich | src/utils/utils.h:31-33 | a key between two others in distance shares every leading bit those two share |
| Keys.KeysUnderPrefix | src/dht/router.cpp:62-68 | at most 2^(160 - n) keys share n leading bits |
| Tries.FullLeafIsShallow | src/dht/router.cpp:46-72 | a full leaf and a new key are 21 keys under one prefix, so at least five bits are left: the guard `split_bit_index > 0` never decides |
| Tries.InsertKeepsWf | src/dht/router.cpp:21-75 | an insertion keeps every peer in the leaf its bits route to, buckets of at most 20, keys distinct and never self, and no node below index 3; a refusal means a full leaf whose bit differs from self and reports its last peer |
| Tries.EvictKeepsWf | src/dht/router.cpp:78-106 | an eviction keeps the same invariant |
| Tries.NearKeysAreNeverRefused | src/dht/router.cpp:62-72 | a key that agrees with self on all bits from index 4 up is never refused |
| Tries.HalvesCount | src/dht/router.cpp:175-187 | a split deals out every peer of the bucket |
| Tries.InsertMap | src/dht/router.cpp:21-75 | as a map, an accepted insertion is `map[key := endpoint]` and a refused one changes nothing, splits or not |
| Tries.EvictMap | src/dht/router.cpp:78-106 | as a map, an eviction is removal of the key |
| Queries.AllPeersEnumeratesMap | src/dht/router.cpp:212-221 | the list of all peers is the map, every entry once |
| Queries.AllPeersDescends | src/dht/router.cpp:212-221 | the list goes through the leaves from the largest keys down |
| Queries.NearestIsRight | src/dht/router.cpp:191-210 | the documented query returns min(n, size) distinct stored peers and leaves out only peers of a returned peer's leaf or farther ones |
| Queries.NearestHasTheClosest | src/dht/router.cpp:201-203 | asked for a bucketful or more, the documented query includes the closest stored peer |
| Queries.SpillOmitsCloser | src/dht/router.cpp:207-208 | a spill of the query as written that keeps to the size bound omits a closer peer for a farther one of another leaf |
| Queries.ClosestIsRightExactly | src/dht/router.cpp:191-210 | the query as written meets its promise if and only if nothing spills over and the key's leaf has n peers or all of them |
| Queries.ClosestDistinct | src/dht/router.cpp:191-210 | the query as written never returns a key twice |
| Starvation.TwentyPeersAnswerNobody | src/dht/router.cpp:206-209 | after a concrete history the table holds 20 peers, the documented query returns all, the query as written none |
| Starvation.ScriptEnds | src/dht/router.cpp:21-106 | that history ends in an empty near leaf and 20 far peers |
| Starvation.FarLeafSplits | src/dht/router.cpp:62-68 | after that history every split node is on self's path, and one more far peer splits the full far leaf, which is not |
| Starvation.StarvedNetworkIsComplete | src/dht/router.cpp:206-209 | with that table, the network of self and its 20 peers has complete tables throughout |
| Starvation.StarvedNetworkThrows | src/dht/session.cpp:299 | yet there a node lookup of self throws for every key on its side of the root, so complete tables are not enough for the query as written |
| Starvation.SplitEmptiesLeaf | src/dht/router.cpp:62-68 | a full root leaf whose peers are all on self's side: a new caller there, accepted or refused, splits it and leaves the other half without anybody, where a query had 20 peers before |
| Starvation.UpdateEmptiesTheLeaf | src/dht/rpc.cpp:163-203 | a network and a good table of one of its nodes in which the call of another node empties the leaf of half of all keys, although the table stays good |
| Splits.InsertStaysOnPathExactly | src/dht/router.cpp:62-68 | an insertion leaves every split node on self's path if and only if all were and it does not split, off that path, a full leaf that lacks the key and at whose bit the key and self agree |
| Splits.RunStaysOnPathExactly | src/dht/router.cpp:62-68 | over any history of insertions and evictions the same, if and only if no step makes such a split |
| Paths.SplitThenInsert | src/dht/router.cpp:62-68 | splitting the full leaf on the way first does not change what the insertion gives |
| Routers.BinaryTree.Split | src/dht/router.cpp:175-187 | in place, a leaf becomes a joint over two new leaves that hold its halves in order, with parent links, indices and counts |
| Routers.Router.Recount | src/dht/router.cpp:55-58 | the walk up `parent` changes the counts of exactly the nodes above the leaf |
| Routers.Router.SetBucket | src/dht/router.cpp:97-101 | writing one leaf and fixing the counts makes the tree the trie with that leaf replaced |
| Routers.Router.SplitLeaf | src/dht/router.cpp:64-68 | splitting one node makes the tree the trie split there; every other node keeps its place and links |
| Routers.Router.InsertBelowRoot | src/dht/router.cpp:25-74 | the loop of an insertion leaves the tree of the functional insertion and reports the same refusal |
| Routers.Router.AttemptInsertPeer | src/dht/router.cpp:21-75 | keeps the whole linked invariant and equals the functional insertion, own key and own endpoint included |
| Routers.Router.EvictPeer | src/dht/router.cpp:78-106 | keeps the linked invariant and equals the functional eviction |
| Routers.Router.constructor | src/dht/router.cpp:7-12 | a new table is valid and holds the first peer |
| Routers.Router.TreeClosestPeers | src/dht/router.cpp:191-210 | the recursion over the heap appends exactly the query as written |
| Routers.Router.ClosestPeers | src/dht/router.cpp:110-112 | the shared buffer grows by exactly the query as written |
| Routers.Router.AllPeers | src/dht/router.cpp:115-117 | the shared buffer grows by every stored peer |
| Runs.AttemptInsertSound | src/dht/router.cpp:21-75 | an insertion keeps the whole invariant, and nobody in the table ever has the own endpoint |
| Runs.EvictPeerSound | src/dht/router.cpp:78-106 | so does an eviction |
| Runs.AttemptInsertRefinesMap | src/dht/router.cpp:21-75 | acceptance is a map update, own key and endpoint and refusals change no entry |
| Runs.EvictPeerRefinesMap | src/dht/router.cpp:78-106 | eviction is map removal, also for the own key |
| Runs.SecondAttemptInserts | src/dht/rpc.cpp:480-506 | evicting the peer a refusal reports makes room in exactly the leaf of the refused key: the second attempt succeeds |
| Runs.UpdatePeerRefinesMap | src/dht/rpc.cpp:480-506 | a peer update is the insertion, nothing, or one replacement, and only a least recently used peer that did not answer with its own key is dropped and counted |
| Runs.InsertInOrder | src/dht/router.cpp:37-53 | rotate, push-front and split keep buckets strictly newest to oldest |
| Runs.EvictInOrder | src/dht/router.cpp:92-104 | eviction keeps recency order |
| Runs.NextIsGood | src/dht/router.cpp:21-106 | one operation keeps structure, depth bound and recency order together |
| Runs.Run | src/dht/router.cpp:21-106 | so does every history of operations |
| Runs.UpdateIsHistory | src/dht/rpc.cpp:480-506 | every peer update is a history of one to three operations, so runs of updates are among the histories |
| Runs.RefusalReportsTheOldest | src/dht/router.cpp:70-74 | in every history the peer reported on refusal is the least recently touched of the full bucket of the refused key |
| Lookups.SortDistinct | src/dht/session.cpp:292 | sorting a list without repeated keys gives a strictly ascending one |
| Lookups.BestIsTop | src/dht/session.cpp:281-295 | deduplicating, sorting and trimming a list that covers a set of keys gives the K closest of that set |
| Lookups.TopIsUnique | src/dht/session.cpp:281-295 | the K closest of a set are unique as keys |
| Lookups.DedupeKeepsFirst | src/dht/session.cpp:282-290 | exactly the first peer of each new key stays, so of two endpoints of a key the one heard first |
| Lookups.MinDistMeans | src/dht/session.cpp:246-253 | the distance the first round has to beat is that of the closest local peer, or the largest there is |
| LookupFacts.LookupFindsTop | src/dht/session.cpp:237-308 | though trimmed every round, a lookup's candidates are the K closest of all keys ever heard of |
| LookupFacts.NodeLookupFindsTop | src/dht/session.cpp:177-210 | the final pass keeps that: the result is the K closest of everything heard in both phases |
| LookupFacts.SweepAsksOnce | src/dht/session.cpp:261-279 | a round asks no key twice and stops after at most `PEER_LOOKUP_ALPHA` answers |
| LookupFacts.LookupAsksOnce | src/dht/session.cpp:245-279 | no lookup asks a key twice |
| LookupFacts.LookupIsHonest | src/dht/session.cpp:217-232 | a found value was sent by the last peer asked; without one no asked peer had it |
| LookupFacts.LookupThrowsExactly | src/dht/session.cpp:299 | `at(0)` throws if and only if caller and router offer nobody |
| LookupFacts.ContinuingRoundProgresses | src/dht/session.cpp:297-306 | candidates never get fewer or farther, and every continuing round strictly lowers (K - size) + minimum distance |
| LookupFacts.LookupEndsByItself | src/dht/session.cpp:237-308 | from any start, with a cap beyond the largest distance, a lookup stops by its own test, by a value, or by the exception on an empty start, never by the cap |
| LookupFacts.LookupDropsSelf | src/dht/rpc.cpp:294-303 | a lookup that starts without self, by key and by endpoint, never offers self |
| LookupFacts.NodeLookupDropsSelf | src/dht/session.cpp:191-209 | nor does a node lookup return self |
| RoundFacts.SweepWalks | src/dht/session.cpp:261-279 | from any point of the walk on, the peers asked are the first of each new key of a prefix of the list, the list grows by exactly their replies, and the walk ends with a value, at the end of the list, or with its number of lists gained |
| RoundFacts.RoundMeans | src/dht/session.cpp:256-279 | a round without a value has asked every key on the list it ends with, or gained exactly three lists, or as many as it had candidates if those were fewer; a round with a value got it from the last peer it asked |
| RoundFacts.LookupIsRounds | src/dht/session.cpp:237-308 | a lookup is a sequence of at most 160 such rounds, each followed by the K closest of the first peers of their keys; every round but the last brought more candidates or a closer one, and it stops early exactly after the first that did not |
| RoundFacts.NearestThreeAreAsked | src/dht/session.cpp:256-279 | unless it found a value before, a lookup asks each of the three closest peers of the router's answer; if one of them has the value, one is found |
| Tables.LookupsNeverOfferSelf | src/dht/session.cpp:177-308 | from every table a history leads to, no lookup offers self and no node lookup returns it |
| Convergence.CloserSubtreesLead | src/dht/session.cpp:237-308 | a list naming a node of each closer sibling subtree leads towards the nearest node |
| Convergence.RoundAdvances | src/dht/session.cpp:261-306 | in a healthy network a round asks the nearest node or gains at least one leading bit of it |
| Convergence.RoundsConverge | src/dht/session.cpp:255-307 | with at least as many rounds left as bits missing, every outcome without a value has the nearest node first |
| Convergence.LookupConverges | src/dht/session.cpp:237-308 | within `KEYBITS` rounds a lookup settles on the globally nearest node, which has been asked if it stopped early |
| Convergence.NodeLookupConverges | src/dht/session.cpp:177-210 | the result of a node lookup is nodes of the network, the nearest first |
| Tables.QueryLeads | src/dht/router.cpp:191-210 | the documented query for a bucketful from a complete table always leads towards the nearest node |
| Tables.QueryLeadsExactly | src/dht/router.cpp:191-210 | the query as written leads there if and only if the owner is that node, or the leaf of the key is not empty, or a spill below the bit where the owner leaves that node answers |
| Tables.WithoutSpillLeadsExactly | src/dht/router.cpp:206-209 | where nothing spills, in particular with at most K peers, if and only if the owner is that node or the leaf of the key is not empty |
| Networks.TwoSessionsAreComplete | src/dht/router.cpp:7-12 | two sessions that start from each other form a network of complete tables |
| Networks.BucketfulIsEmptyExactly | src/dht/rpc.cpp:190-199 | a complete table answers with nobody never by the documented query, and by the query as written exactly if every leaf it visits is empty |
| Networks.BucketfulLeadsExactly | src/dht/rpc.cpp:190-199 | what a good table answers leads towards the nearest node if and only if the table points on |
| Networks.ReplyLeads | src/dht/rpc.cpp:163-203 | a list from some good table of the sender that points on names other nodes of the network and leads towards the nearest |
| Networks.LeadSurvivesRequester | src/dht/rpc.cpp:294-303 | beyond the bits the requester shares with the nearest node, a reply that leads there still does when the requester is dropped from it |
| Networks.CompleteNetworkIsHealthy | src/dht/rpc.cpp:294-303 | replies each from a good table of its own that points on at the time make the network healthy, even though every reply loses the requester |
| Networks.CompleteNetworkConverges | src/dht/session.cpp:237-308 | where each reply comes from a good table that points on at the time, a lookup by any node but the nearest finds a value or settles on the nearest of all, having asked it |
| Networks.InsertKeepsGood | src/dht/rpc.cpp:142 | the insertion of a network node keeps a good table good: nobody is lost and nobody foreign comes in, accepted or refused, split or not |
| Networks.AnsweredUpdate | src/dht/rpc.cpp:480-506 | a peer update in which the least recently used peer answers is one insertion attempt |
| Networks.CallsKeepGood | src/dht/rpc.cpp:142-170 | so after calls from any nodes of a live network, in any order, a good table is good |
| Networks.CallsAnswerFromTables | src/dht/rpc.cpp:163-203 | in a live network of complete tables, whoever called whom before each reply, the replies of the documented query come from good tables that point on |
| Retrieval.GetIsHonest | src/dht/session.cpp:129-144 | `get` returns the local copy or bytes of a peer it asked; nothing means neither had the key |
| Retrieval.StoreAllAt | src/dht/session.cpp:113-117 | after storing, every target has the key, new data where it was missing or forced, and nothing else changed |
| Retrieval.PublishAt | src/dht/session.cpp:103-127 | who holds what after a publish, node by node |
| Retrieval.PublishKeepsLocalCopy | src/dht/session.cpp:120-126 | a node lookup returns at most K peers, so the publisher always ends with the chunk |
| Retrieval.LookupFindsHeldValue | src/dht/session.cpp:217-232 | if the nearest node holds the value and copies agree, a value lookup finds it |
| Retrieval.GetAfterPublish | src/dht/session.cpp:95-144 | if all copies agree after the publish, `get` at any node returns the published data, whoever of publisher, reader and third node is nearest |
| Retrieval.ReadBackEverywhereExactly | src/dht/session.cpp:95-144 | every node reads back what was set if and only if no node out of reach of the publish holds other data |
| Retrieval.CompleteNetworkPublishes | src/dht/session.cpp:103-118 | where each reply comes from a good table that points on at the time, the lookup of a publish throws exactly if the own table answers with nobody; else the nearest node of all is a target or the publisher |
| Retrieval.PointingNetworkReadsBack | src/dht/session.cpp:95-144 | where each reply to publisher and readers comes from a good table of its own that points on at the time, a value whose publish does not throw is read back at every node if and only if no node out of reach holds other data |
| Retrieval.CompleteNetworkReadsBack | src/dht/session.cpp:95-144 | with the documented query it is enough that each reply comes from some good table of its sender; with a second node the publish does not throw |
| Retrieval.AsWrittenReadsBack | src/dht/session.cpp:95-144 | with the query as written, the same if the leaf of the key is not empty in any table that answers, at the time it answers |
| Protocol.RunIsAuthentic | src/dht/rpc.cpp:206-251 | in every reachable state each chunk held, in flight or in hand was set by somebody |
| Protocol.CopiesAgree | src/dht/rpc.cpp:351-403 | in every interleaving, copies of a key that is only set to one value agree, even when two publishers are both told to continue |
| Protocol.TwoValuesDisagree | src/dht/session.cpp:95-127 | and two values for one key can leave two nodes with different copies |
| Protocol.CopiesHashToTheirKey | src/dht/rpc.cpp:227-251 | every copy under a content key hashes to that key in every reachable state |
| Protocol.GivesUpExactly | src/dht/rpc.cpp:66-72 | in one step a live node loses a key if and only if it leaves, or the key expires there while no publish has it, or the only publish that has it throws while the map lacks it |
| Protocol.RunKeepsExactly | src/dht/rpc.cpp:66-72 | over any run a node has a key all along, in its map or in a publish, if and only if no step gives it up |
| Protocol.FinishedPublishIsInTheMap | src/dht/session.cpp:119-123 | over any run that does not give the key up, once no publish of it is under way at a node, the map of the node has it with data somebody set |
| Protocol.UnforcedStoreCanOverwrite | src/dht/rpc.cpp:206-251 | two unforced stores that were both told to continue overwrite each other |
| Protocol.HeldChunkIsProtected | src/dht/rpc.cpp:351-403 | a chunk that is there, with no forced or granted call of other data on its way and no publish of other data at its node or by force, stays protected over any run of unforced sets at other nodes, however calls and answers interleave |
| Protocol.HeldChunkStaysExactly | src/dht/rpc.cpp:206-251 | a held chunk survives every such run if and only if it is protected: else some run of calls, answers and publishes already under way replaces it |
| Replicas.ReplicaIsThere | src/dht/rpc.cpp:351-403 | from any state with a publish under way at a live node, forced or not, the steps of one call to a live target end with the data there, or, if the target had the key and the publish is not forced, with its own copy |
| Replicas.ReplicaArrives | src/dht/rpc.cpp:351-403 | and nothing else changes anywhere |
| Replicas.RefusedCallEnds | src/dht/rpc.cpp:369-371 | a call that is turned down is over, with nothing changed |
| Replicas.LostCallLeavesNothing | src/dht/rpc.cpp:364-367 | a call that is lost leaves no replica |
| Replicas.StepsStayInPlace | src/dht/rpc.cpp:206-251 | every step leaves all nodes, calls and publishes but its own as they are, and a node that is gone starts nothing |
| Replicas.SendsStoreAll | src/dht/session.cpp:113-117 | the calls to all targets in turn leave exactly the copies of `Retrieval.StoreAll` |
| Replicas.PublishIsARun | src/dht/session.cpp:103-127 | the one-step publish of `Retrieval` is a run of the protocol: it ends with exactly those copies, the publish over and no call left |
| Replicas.SetIsARun | src/dht/session.cpp:95-101 | so is a whole set |
| Replicas.RepublishIsARun | src/dht/rpc.cpp:66-72 | so is a republish, an unforced publish of what the node had, without the chunk in its map until it ends; if its lookup throws the chunk is gone there |
| Calls.UpdateSteps | src/dht/rpc.cpp:480-506 | the outcome of a peer update by what each attempt returns: insertion, a live least recently used peer, or eviction and a second attempt that succeeds |
| Calls.UpdatedKeys | src/dht/rpc.cpp:480-506 | after an update the peer is in the table unless the least recently used peer of its full bucket answered; nobody goes but that peer, and nobody else comes |
| Calls.SeenAreLearned | src/dht/rpc.cpp:294-303 | of several peers updated in turn each is in the table at the end, unless it was turned away so or a later one took its place |
| Calls.AnswerTeaches | src/dht/rpc.cpp:290-303 | an answered call is the updates of the receiver and then of the listed peers but self, and teaches each of them in that sense |
| Calls.DeadAreDisplaced | src/dht/rpc.cpp:500-503 | an update counts a dead peer exactly if it evicts one |
| Calls.CallKeys | src/dht/rpc.cpp:284-303 | a failed call removes exactly its peer from the map; any other brings in nobody but those it names |
| Calls.DeadAreGone | src/dht/rpc.cpp:284-288 | over any calls, a peer that failed and that no later reply names is not in the table |
| Calls.LookupForgetsTheDead | src/dht/session.cpp:177-308 | the same for whole lookups and both passes of a node lookup |
| Calls.StoreKeys | src/dht/rpc.cpp:351-403 | a store that fails its first call removes exactly its peer; one that goes on is one update of its receiver, or two if the data arrived |
| Calls.StoresForgetTheDead | src/dht/session.cpp:113-117 | a target of a publish that could not be reached, and that no later one answers for, is not in the table |
| Sessions.Session.UpdatePeer | src/dht/rpc.cpp:480-506 | the retry loop ends after at most two insertions and one eviction, with the table and dead-peer count `Runs.UpdatePeer` gives |
| Sessions.Session.Ping | src/dht/rpc.cpp:407-429 | a failed ping evicts the peer and changes nothing else |
| Sessions.Session.Absorb | src/dht/rpc.cpp:294-303 | listed peers other than self are updated in order and appended |
| Sessions.Session.FindNode | src/dht/rpc.cpp:272-305 | a failed call removes exactly its peer from the map; an answer updates the receiver, then every listed peer but self, counting dead peers, and appends those to the list |
| Sessions.Session.FindValue | src/dht/rpc.cpp:307-349 | the same for a list and a failed call; a value updates the receiver only and is returned |
| Sessions.Session.Store | src/dht/rpc.cpp:351-403 | the result and the table of a store call for each way its two calls can go; a failed first call removes exactly its peer |
| Sessions.Session.Unique | src/dht/session.cpp:282-290 | the loop keeps the first peer of each key, in order |
| Sessions.Session.AskClosest | src/dht/session.cpp:256-279 | the inner loop over its own growing list is one round of the functional lookup, and the table is what the calls to the peers asked make of it |
| Sessions.Session.AskRounds | src/dht/session.cpp:255-307 | the loop of rounds is the functional lookup from its candidates, and the table is what the calls to the peers asked make of it |
| Sessions.Session.LookupHelper | src/dht/session.cpp:237-308 | the nested loops are the functional lookup from the table at the start, whatever the queries do to the table, which ends as the calls to the peers asked leave it, in order; an exception leaves it unchanged |
| Sessions.Session.AskAgain | src/dht/session.cpp:191-195 | the last pass asks every candidate once more, appends the replies and leaves the table those calls make |
| Sessions.Session.NodeLookup | src/dht/session.cpp:177-210 | is the functional node lookup from the table at the start, throws exactly when that answers with nobody, never returns self, and leaves the table that its calls make, pass by pass |
| Sessions.Session.Publish | src/dht/session.cpp:103-127 | the chunk ends in the local map, sent to all peers of the lookup; the table is what the calls of the lookup and then of the stores make of it; if the lookup throws nothing has changed |
| Sessions.Session.Get | src/dht/session.cpp:129-144 | returns what `Retrieval.Get` says of the table at the start, throws exactly if there is no copy and nobody to ask, and changes the table by the calls of the lookup only |
| Sessions.Session.Republish | src/dht/rpc.cpp:58-72 | a pass publishes every stale chunk once, each to the peers its lookup returned from the table as the publishes before left it, and ends with the same map; or it throws, exactly if that table has no answer for the next stale key, with exactly that chunk lost |
| Sessions.Session.HandleStoreInit | src/dht/rpc.cpp:206-225 | asks for the data exactly if the chunk is not here, after updating the sender |
| Sessions.Session.HandleStore | src/dht/rpc.cpp:228-251 | the chunk replaces whatever was under its key |
| Sessions.Session.HandleFindValue | src/dht/rpc.cpp:163-203 | replies with the chunk, else with the router's answer |
| Codec.KeyFromDigest | src/utils/utils.cpp:14-29 | bit 8i + j of the key is bit j of byte i of the digest |
| Codec.ByteIsItsBits | src/utils/utils.cpp:17-28 | a byte is the sum of its bits, bit j with the weight of 2^j |
| Codec.DigestsStayDistinct | src/utils/utils.cpp:17-28 | packing loses nothing: different digests give different keys |
| Codec.KeyStringRoundTrip | src/client/file.cpp:115-116 | the text of a key is its digits 0 and 1 from the top bit down; it reads back as the key and contains no NUL |
| Files.ChunksConcat | src/client/file.cpp:90-105 | a file of n bytes is n / 1048576 full chunks and one shorter, possibly empty chunk, and their concatenation is the file |
| Files.MetadataRoundTrip | src/client/file.cpp:112-118 | parsing the metadata of any list of keys gives that list |
| Files.StoreChunks | src/client/file.cpp:90-109 | the reading loop makes the unforced set of every chunk under its hash, in order, and returns the keys |
| Files.BuildMetadata | src/client/file.cpp:113-118 | the loop builds the NUL-framed text of the keys |
| Files.WriteFromFile | src/client/file.cpp:84-121 | a file that opens makes the sets of its chunks and by force that of its metadata, whichever unforced ones take effect; one that does not changes nothing |
| Files.ReadMetadata | src/client/file.cpp:135-149 | the character loop appends the keys of the well-formed records, skipping those of the wrong length |
| Files.JoinChunks | src/client/file.cpp:169-184 | the concatenation of the chunks, or failure if any is missing |
| Files.ReadInFiles | src/client/file.cpp:124-185 | equals the functional read, with its failures and its exception |
| Files.ReadStored | src/client/file.cpp:124-185 | any list of stored names reads the concatenation of their contents in order |
| Readings.ParseMeans | src/client/file.cpp:135-149 | the character loop throws exactly on a terminated record of a key's length that is no key, and else gives the keys of the records of that length in order |
| Readings.ReadFilesExactly | src/client/file.cpp:124-185 | the first file at which a read stops decides: nothing under its name fails it, a bad record throws; if it stops at none it gives the data under all keys spelled, in order, or fails if one is missing |
| Readings.ReadsOnlyWhatIsThere | src/client/file.cpp:131-133 | bytes come back only if something is stored under every name and under every key spelled there |
| Labels.WriteSettles | src/client/file.cpp:84-121 | a write puts its metadata under its name and each chunk under its key, or leaves there the label that was there |
| Labels.SeenIsContentExactly | src/client/file.cpp:124-185 | a file read with labels in the place of some chunks is the file if and only if no chunk is a label |
| Labels.FilesRoundTripExactly | src/client/file.cpp:84-185 | files of distinct names written one after the other all read back, whichever unforced sets take effect, if and only if no name of one is a chunk of one |
| Labels.FileRoundTripExactly | src/client/file.cpp:84-185 | one file reads back in every outcome if and only if its name is not one of its chunks |
| Labels.FileSpellingItsName | src/client/file.cpp:98-119 | so a short file that spells its own name does not |
| Labels.FileSpellingAnothersName | src/client/file.cpp:98-119 | of a file and a second one whose bytes are its name, the second reads as the metadata of the first, or the first as empty |
| Commands.RecordsOfNames | src/client/file.cpp:25-28 | the records of an index are the names it was built from, followed by those of what is appended |
| Commands.FileNameMeans | src/client/cmd.cpp:123-124 | the stored name has no slash and is all that follows the last one of the path |
| Commands.AddFilesToIndex | src/client/file.cpp:20-31 | appends the framed names to the index, or fails without change if there is none |
| Commands.GetIndexFiles | src/client/file.cpp:34-53 | the caller's list grows by the non-empty records |
| Commands.FileExists | src/client/file.cpp:56-75 | true if and only if some terminated record, empty ones included, is the name |
| Commands.Client.Bootstrap | src/client/cmd.cpp:37-65 | a new cluster starts with an empty index |
| Commands.Client.StoreCmd | src/client/cmd.cpp:120-146 | the new store, the complaints, the names added and the output are those of the functional command, whichever unforced sets take effect |
| Commands.Client.LoadCmd | src/client/cmd.cpp:149-166 | writes exactly the read bytes to the output file, or nothing, with the right complaint |
| Commands.NamesInOrder | src/client/cmd.cpp:113-116 | the output has one line for each name, in order |
| Commands.Client.ListCmd | src/client/cmd.cpp:105-117 | lists the non-empty records in order |
| Catalogs.KeepMeans | src/client/cmd.cpp:121-135 | the catalogue of a run is exactly the first attempt at each name, once each, and only ever grows at its end |
| Catalogs.WriteHolds | src/client/cmd.cpp:131-135 | writing a new name keeps every file of the catalogue and adds the new one, if the files are apart or no unforced set replaces anything |
| Catalogs.StoreOneHolds | src/client/cmd.cpp:123-135 | a file is taken exactly if its name is new and it opens |
| Catalogs.StoreCmdKeepsCatalog | src/client/cmd.cpp:120-146 | a store command takes a represented catalogue to the catalogue with its readable new names |
| Reports.StoreComplains | src/client/cmd.cpp:125-134 | a store command complains of exactly the files it does not take, in order: names the catalogue has already exist, of the others those that do not open |
| Catalogs.RunUnder | src/client/cmd.cpp:105-166 | an outcome of a run without a file named `index`, in which no unforced set replaces anything or the files are apart, is right if and only if no name is empty and no name, nor `index`, is a chunk of one of the files |
| Catalogs.RunLoads | src/client/cmd.cpp:149-166 | then any selection of listed names loads the concatenation of those first contents |
| Reports.RunOnlyAdds | src/client/cmd.cpp:120-146 | a run stores nothing under any key but those of its names and chunks and of `index` |
| Reports.RunLoadsExactly | src/client/cmd.cpp:149-166 | after a run, a load of names that are listed or outside the run succeeds if and only if all are listed; else it fails, so `LoadCmd` leaves the disk as it was (names that spell a chunk or `index` are neither) |
| Indexes.MetadataAsIndex | src/client/file.cpp:112-118 | file metadata read as an index lists the text of the chunk keys |
| Indexes.ListingAfter | src/client/file.cpp:10-31 | the listing after one new file in each outcome, for files named `index` or containing it as a chunk included |
| Indexes.ListingGrowsExactly | src/client/file.cpp:10-31 | storing one new file adds its name to the listing in every outcome if and only if no chunk spells `index`, or for a file named `index`, the old listing was the texts of its chunk keys |
| Indexes.IndexFileSpoilsTheListing | src/client/file.cpp:10-31 | after a file named `index` was stored the listing starts with the text of a chunk key for the rest of the run |
| Indexes.RunIsRightExactly | src/client/cmd.cpp:105-166 | from an initialised index, over any run, the listing is the first successful stores in order and each reads as first stored, in every outcome, if and only if no such name is empty or `index` and no such name, nor `index`, is a chunk of one of these files |
| Backing.GetRefines | src/dht/session.cpp:129-144 | while the network backs a store, `get` at any node is a lookup in that store |
| Backing.SetRefinesExactly | src/dht/session.cpp:95-127 | a set keeps the network one store, now with the new data, if and only if it leaves no stale copy out of its reach; else the network backs no store |
| Backing.RunIsBackedExactly | src/dht/session.cpp:95-127 | over any run of sets through any sessions the network is all along the store those sets make if and only if every set that changes a key is made by, or sent by force to, every node a copy of the key has reached: a condition on the copies at the start, the sets and their targets alone |
| Backing.HoldersAreReached | src/dht/session.cpp:113-126 | after any run of sets the nodes that have a key are those that had it at the start, published it or were a target for it |
| Backing.OneSessionIsBackedExactly | src/dht/session.cpp:95-127 | through one session whose targets do not change, if and only if every set that changes a key is forced or no other node has been reached with the key |
| Deployments.RunIsReplay | src/client/cmd.cpp:120-146 | a run of store commands is the replay of its sets |
| Deployments.RunOverNetwork | src/client/cmd.cpp:120-146 | a run of store commands over the network, each existence check, index read and set through some session: if each set that changes a key reaches all nodes that have it, the run makes exactly the sets it makes on one store, every later read sees that store, and it lists and loads the first successful stores |
| Deployments.RunFollows | src/client/cmd.cpp:120-146 | under that condition the run over the network makes set by set what the run on one store makes |
| Deployments.TablesMakeGoodReaders | src/dht/session.cpp:129-144 | sessions that hear of good tables that point on, and of chunks where they are, are good for such reads |
| Deployments.RunSets | src/client/cmd.cpp:120-146 | the sets of a run are the chunks of its catalogue under their hashes and, by force, the metadata of its files and the index |
| Deployments.OneSessionRuns | src/client/cmd.cpp:120-146 | a client that keeps to one session whose targets do not change meets the condition, if copies from before under its names or `index` are at that session or those targets: its runs over the network are then those on one store |
| Deployments.StaleCopySplitsTheNetwork | src/dht/session.cpp:113-126 | after the first set that leaves a stale copy behind no single store answers for every session |

## Left out

- Convergence.LookupConverges: assumes a static network in which replies of one phase are a function of the peer asked; churn during a lookup is not modelled.
- Networks.CompleteNetworkConverges: excludes the node that is itself nearest to the key, whose copy the end-to-end results use directly.
- Retrieval.PointingNetworkReadsBack: the nodes are the same at the publish and the reads, and every node answers every call.
- Networks.CallsKeepGood: evictions of nodes that do not answer, and replies that name nodes outside the network, are not among the calls.
- Indexes.RunIsRightExactly: assumes that the first file of the run is not named by the 160-digit text of the key of the first chunk of a file named `index` (that file's metadata can then be the index it replaces); names have no NUL, the strings at hand do not collide, and one client acts at a time.
- Deployments.RunOverNetwork: sets and gets are whole operations in turn; their interleaving is in `Protocol`.
- Routers.Router.TreeClosestPeers: passes the list through the recursion by value; the buffer callers share is written once at the top.
- Peers are values: overwriting an endpoint through a shared `Peer*`, and freed or leaked peers, are not modelled.
- `std::sort` is a stable insertion sort; it sorts lists with repeated keys only when a caller passes a non-empty start list, which none does.
- Remote calls are replies or failures given as parameters; gRPC stubs, channels, servers and message formats are left out.
- Threads and mutexes: steps are atomic between lock boundaries. The republish pass is sequential, and no claim is made that the thread holding `chunks_lock` across `publish` (src/dht/rpc.cpp:56-73) proceeds. The concurrent sets and gets of file.cpp run one after the other.
- Clock-driven code: `latest_access`, expiry and its reversed subtraction (src/dht/rpc.cpp:91), which chunks are stale (a parameter), `random_per_bucket_peers`.
- `startup`, `self_lookup`, `teardown`, `get_peer`, destructors: start-up and shut-down order and memory.
- SHA-1 itself, `random_key` and `hex_string`.
- Local files that open but cannot be read (directories) and the output file's write errors; `LoadCmd` takes as a parameter whether the output opens.
- Starting and stopping sessions on bootstrap, join and exit, `clear_cmd`, the strain-reliever thread, daemon pipes, argument parsing and the interactive loop.
