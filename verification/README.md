# A verified model of the Chord ring in ChordPlusPlus

ChordPlusPlus is a distributed hash table. Nodes sit on a circle of 2^256 ids, keep a
predecessor and a finger table, find the node responsible for a key by hopping along
fingers, and store data at that node. This project models that behaviour in Dafny and
proves what the nodes promise together.

`dafny verify dfyconfig.toml` checks everything.

## What is modelled

- `Ring`, `Bytes`: the circle. The program compares, adds and shifts 32-byte big-endian
  arrays; these operations are shown to be arithmetic modulo 2^256, and the circular range
  test to be an order of clockwise distances.
- `Pointers`, `Storage`: the routing state and the data of one node as values, with what a
  node computes from them. `NodeInfo`, `Maintenance`: the same state in objects, updated in
  place by the methods of `NodeInformation`, `PeerImpl` and `Dht`, each proved to do what the
  value-level function says. What peers answer comes in as a parameter and a message to send
  is a result.
- `Protocol`: a whole ring as a transition system. One node creates it; any number of nodes
  join through a lookup; stabilize is split into the report of the successor, the digestion of
  that report and the delivery of the notification; fingers are repaired. Messages stay
  available once sent, so late, reordered and repeated delivery is covered.
- `IdealRing`, `Convergence`, `FairRuns`, `Growth`: what the protocol aims at and how it gets
  there.
- `Lookup`, `LocalLookup`, `LaggingRing`, `FingerRepair`: the two lookups (passing on, and the
  default search with a stack of hops and a distrusted set) and the repair of fingers.
- `Replication`, `Table`, `Refinement`: copies of items, puts and gets on the stores of all
  nodes, and the whole table as one map.
- `ProofOfWork`: the puzzle a node solves before it may join.

SHA-256 and SHA-1 are parameters of the statements that use them, so the results hold for
every hash function. A node is its id, which the program computes from address and port.

## Main results

1. In every failure-free run whose joins use passing on, or a default lookup that distrusted
   nobody, the creating node is never jumped over by a successor or predecessor arc, so
   following successors from any member reaches it: the ring never splits. Which other answers
   of the default lookup may be joined on is stated exactly.
2. A reachable state in which no stabilize changes anything is exactly the ideal ring.
3. Without joins, a run over n members changes pointers at most 2n^2 times, an ideal ring stays
   ideal whatever old messages arrive, and every fair interleaving reaches the ideal ring within
   2n^2 + 1 stretches in which every member completes a stabilize round.
4. From every ideal ring, a join and two stabilizes give the ideal ring of the larger set.
5. Both lookups find the owner on ideal rings with arbitrary member-valued fingers; with exact
   fingers each hop more than halves the remaining way, so 256 hops suffice. From any ideal ring,
   table and position, 256 repairs make a table exact, exactly when the first of them does not
   move the successor, as it never does while the first finger is set.
6. Among peers that answer anything at all, the default lookup ends if its requests do, its stack
   advances and never holds a distrusted node, what it finds passed the check, and it gives up
   only after distrusting the asking node itself. While pointers
   lag, passing on never skips the creating node, and is handed on fewer times than there are
   members. The default lookup can skip it, and a reachable state where it does is given. Whether
   it will distrust anybody, and whether its answer is safe, are characterised exactly.
7. Puts with replication, joins with handoff, finger repairs and sweeps refine one map. What a
   read returns after the original was lost or swept is stated exactly: the value, if the put
   stored its first copy, and otherwise the first copy of an earlier put, which is stale.

## Where code and comments disagree

The model follows the code.

- The comment before the check of a lookup answer (src/dht/Peer.cpp:422-423) says that a
  reported successor must be responsible for the id. The code tests the id against the
  successor's predecessor and the asked node, not the successor (src/dht/Peer.cpp:438).
  `LaggingRing.LocalMaySkipBase` shows a consequence, and `LocalLookup.FoundIsSafeExactlyWhen`
  which comparison is missing.
- A comment speaks of up to 10 copies per node for a limit of 5 (src/dht/NodeInformation.h:115-116).
  The code allows max(1, limit), the original included.
- docs/Final_report.md:231-233 derives node ids from a public key as well; the code uses
  address and port only (src/dht/NodeInformation.cpp:242-249).

## Model

| member | source | states |
|---|---|---|
| Ring.InRangeIsDistanceOrder | src/util/util.h:101-111 | For all four endpoint choices and for equal endpoints, the range test is an order of clockwise distances |
| Ring.ArcSplits | src/util/util.h:101-111 | A point inside (a, c) cuts (a, c] into two disjoint arcs that together are (a, c] |
| Bytes.LexicographicIsNumeric | src/util/util.h:101-111 | Lexicographic order and equality of equally long byte arrays are order and equality of the numbers they denote |
| Bytes.RangeTestOnIds | src/util/util.h:101-111 | The range test on 32-byte arrays is the range test on their numbers |
| Bytes.SumIsAddition | src/util/util.h:270-288 | The column-by-column sum denotes (a + b) modulo 256^size |
| Bytes.AddColumns | src/util/util.h:270-288 | The carry loop, from the last byte to the first, leaves exactly the digits of the column-by-column sum |
| Bytes.Add | src/util/util.h:270-288 | The sum array denotes (a + b) modulo 256^size, for every size |
| Bytes.PowerOfTwo | src/util/util.h:113-121 | The array denotes 2^exp when exp < 8 * size and 0 otherwise |
| Bytes.FingerStart | src/dht/Dht.cpp:572-573 | Adding pow2(k) to a 32-byte id moves it clockwise by 2^k modulo 2^256 |
| Pointers.FirstFinger | src/dht/NodeInformation.cpp:88-94 | The successor is a populated finger, the first one when that is set, and is missing only when all are |
| Pointers.FirstFingerIsLowest | src/dht/NodeInformation.cpp:88-94 | Of the populated fingers the one with the lowest index is the successor |
| Pointers.ClosestPreceding | src/dht/Peer.cpp:345-356 | The result is a finger strictly between node and id, and is missing exactly when there is none |
| Pointers.ClosestPrecedingIsHighest | src/dht/Peer.cpp:345-356 | Of the fingers strictly between node and id the one with the highest index is taken |
| NodeInfo.NodeInformation.GetFinger | src/dht/NodeInformation.cpp:74-80 | Reads the finger, and fails exactly when the index is out of range |
| NodeInfo.NodeInformation.SetFinger | src/dht/NodeInformation.cpp:81-87 | Replaces exactly that finger, and changes nothing when the index is out of range |
| NodeInfo.NodeInformation.GetSuccessor | src/dht/NodeInformation.cpp:88-94 | The loop finds the first populated finger |
| NodeInfo.NodeInformation.SetSuccessor | src/dht/NodeInformation.cpp:95-99 | Sets the first finger; every other finger and the predecessor stay |
| NodeInfo.NodeInformation.SetData | src/dht/NodeInformation.cpp:115-137 | Stores the item; it counts as expired at an instant exactly when it has a time to live and that has passed |
| Storage.ExpiresExactlyWhen | src/dht/Peer.cpp:101-105 | With a time to live an item expires exactly after it, and without one never |
| NodeInfo.NodeInformation.Clean | src/dht/NodeInformation.cpp:15-32 | The cleaner keeps items unchanged, erases all that had expired when it started and none that had not when it ended |
| NodeInfo.NodeInformation.GetDataItemsForNodeId | src/dht/NodeInformation.cpp:146-164 | Collects exactly the items whose key hashes into (pred, new], and all of them without a predecessor |
| NodeInfo.NodeInformation.DeleteDataAssignedToPredecessor | src/dht/NodeInformation.cpp:171-177 | Removes exactly the listed keys |
| Maintenance.PeerImpl.Notify | src/dht/Peer.cpp:60-78 | The predecessor is replaced exactly when unset or when the notifier is strictly between it and this node |
| Maintenance.PeerImpl.AnswerAlone | src/dht/Peer.cpp:254-289 | What a node answers by itself: itself on (pred, self], its successor on (self, succ], nothing otherwise |
| Maintenance.PeerImpl.GetClosestPreceding | src/dht/Peer.cpp:345-356 | The descending loop computes the closest preceding finger |
| Maintenance.PeerImpl.GetDataItemsOnJoin | src/dht/Peer.cpp:116-155 | For every newcomer: an item is sent exactly when the newcomer is strictly between predecessor and self and the hash is in (pred, new]; exactly the items not sent stay, unchanged |
| Maintenance.PeerImpl.Pack | src/dht/Peer.cpp:130-152 | The message unpacks to the items with whole-second expiry, and the delete list has exactly their keys |
| Maintenance.PeerImpl.StoreReceived | src/dht/Peer.cpp:495-519 | The received items end up in the store, and items under other keys stay |
| Storage.UnpackKeepsOthers | src/dht/Peer.cpp:508-514 | What was stored under keys the message does not carry is kept |
| Storage.UnpackStores | src/dht/Peer.cpp:508-514 | Under a carried key the last item of the message is stored |
| Maintenance.Dht.Create | src/dht/Dht.cpp:430-435 | Predecessor unset, successor is the node itself |
| Maintenance.Dht.Join | src/dht/Dht.cpp:437-508 | Predecessor unset in every case; successor and data unchanged when a request fails, successor unset when the answer has none, and otherwise the answered successor with its data taken over |
| Maintenance.Dht.Stabilize | src/dht/Dht.cpp:510-567 | For every report, including no successor and no report: a closer node is adopted as first finger and notified, otherwise the successor is notified unless it points back; all other fingers and the predecessor stay |
| Maintenance.Dht.FixFingers | src/dht/Dht.cpp:569-578 | The finger at the running index takes the lookup outcome and the index advances cyclically |
| Storage.HandoffConserves | src/dht/Peer.cpp:116-155 | For every newcomer the old store is the disjoint union of kept and received items; an item moves exactly when the newcomer is strictly between predecessor and self and its hash is in (pred, new]; kept ones of the old arc are then in (new, self]; values are equal and expiry drops by less than a second |
| Protocol.AnswerDoesNotSkipBase | src/dht/Peer.cpp:254-289 | A member's answer is a member met no later than the creating node when walking clockwise from the id |
| Protocol.FirstFingerIsKept | src/dht/Dht.cpp:569-578 | Repairing the first finger never moves the successor |
| Protocol.StepKeepsInv | src/dht/Dht.cpp:430-578 | Every step of the protocol keeps the ring invariant, with any messages in flight |
| Protocol.BaseIsNeverSkipped | src/dht/Dht.cpp:430-578 | In every state reachable by joins on passed-on lookups, or on default lookups whose answer s was reported by an n with the id in (n, s], all pointers name members and no arc jumps over the creating node |
| Protocol.RingIsNeverSplit | src/dht/Dht.cpp:510-567 | In each of these states a path of successors leads from any member to the creating node |
| Protocol.ReportSkipsBaseExactlyWhen | src/dht/Peer.cpp:429-446 | A successor s reported by member n comes no later than the creating node on the way from id, exactly when id is in (n, s] or the creating node is in [s, id) |
| Protocol.JoinIsSafeExactlyWhen | src/dht/Dht.cpp:437-508 | Joining on a successor that any member reports keeps the ring invariant exactly under that condition |
| Protocol.LookupsMakeProgress | src/dht/Peer.cpp:254-309 | A lookup in flight in a changing ring is answered by a member without skipping the creating node, or moves to a member strictly closer to the id |
| Protocol.LookupsAreAnswered | src/dht/Peer.cpp:291-309 | Over any run, joins included, a lookup visits no more members than there are at the end, and once it visited as many, its holder can answer |
| Convergence.StabilizeIsARun | src/dht/Dht.cpp:510-567 | An undisturbed stabilize is a run of the protocol |
| Convergence.NobodyIsSkipped | src/dht/Dht.cpp:510-567 | When all successors point back, no member lies between another and its successor |
| Convergence.MutualIsIdeal | src/dht/Dht.cpp:510-567 | Good pointers that are mutual form one ordered cycle |
| Convergence.QuietExactlyWhenIdeal | src/dht/Dht.cpp:510-567 | In reachable states, nothing is left to change exactly when the ring is ideal |
| Convergence.StepTightens | src/dht/Peer.cpp:67-75 | A step other than a join changes a pointer only to a member strictly closer than before |
| Convergence.StepShrinksMeasure | src/dht/Peer.cpp:67-75 | Such a change strictly lowers the total pointer length and the number of members jumped over |
| Convergence.DisorderIsQuadratic | src/dht/Dht.cpp:510-567 | The number of members jumped over is at most twice the square of the number of members |
| Convergence.ChangesAreBounded | src/dht/Dht.cpp:510-578 | In any run without joins, the pointer changes plus the members jumped over at the end are at most those jumped over at the start |
| Convergence.FinitelyManyChanges | src/dht/Dht.cpp:510-578 | Any run without joins over n members changes pointers at most 2n^2 times |
| FairRuns.IdealUntilJoin | src/dht/Dht.cpp:510-578 | An ideal ring stays ideal under every run without joins, whatever old messages are delivered |
| FairRuns.IdleFairStretchIsIdeal | src/dht/Dht.cpp:510-567 | If every member completes a stabilize round, interleaved at will, and nothing changes, the ring is ideal |
| FairRuns.FairRunsConverge | src/dht/Dht.cpp:56-77 | Every fair interleaving without joins brings any reachable ring of n members to the ideal one within 2n^2 + 1 fair stretches and keeps it there |
| FairRuns.EveryRingCanConverge | src/dht/Dht.cpp:56-77 | From every reachable state such fair runs exist, so the ideal ring can always be reached without further joins |
| Growth.GrownPointers | src/dht/Dht.cpp:437-567 | After a join and two stabilizes the newcomer sits between its neighbours, these keep all fingers but the first, and nobody else changed |
| Growth.JoinThenTwoStabilizesIsIdeal | src/dht/Dht.cpp:437-567 | From every ideal ring, a join and one stabilize each of the newcomer and the member before it give the ideal ring of the enlarged set |
| IdealRing.NeighbourArcIsOwned | src/dht/Peer.cpp:258-267 | The arc between neighbours is exactly what its end owns |
| Lookup.PassOnIsSafe | src/dht/Peer.cpp:291-309 | With good but stale pointers, passing on ends in a member and never beyond the creating node |
| Lookup.ReachableLookupIsSafe | src/dht/Peer.cpp:254-309 | The same in every reachable state, from any member and for any id |
| Lookup.PassOnIsExact | src/dht/Peer.cpp:254-309 | On an ideal ring with any member-valued fingers, passing on finds the owner |
| Lookup.HopHalvesTheWay | src/dht/Peer.cpp:345-356 | With exact fingers a hop leaves less than half the way to the last member before the id |
| Lookup.PassOnFollowsRoute | src/dht/Peer.cpp:291-309 | Along any route of closest preceding fingers, the outcome of passing on is what the last node answers |
| Lookup.RouteExists | src/dht/Peer.cpp:291-309 | Every lookup has such a route |
| Lookup.LookupIsLogarithmic | src/dht/Peer.cpp:291-309 | With exact fingers every route of a lookup has at most 256 hops and ends at a node that names the owner |
| LocalLookup.AskOn | src/dht/Peer.cpp:479-492 | Whatever a hop answers, an outcome is one of its answers and names nobody distrusted |
| LocalLookup.AskingEndsExactlyWhen | src/dht/Peer.cpp:479-492 | Asking a hop ends exactly when it once names nobody distrusted |
| LocalLookup.AskingEndsWithFirst | src/dht/Peer.cpp:479-492 | The outcome is the first answer that names nobody distrusted |
| LocalLookup.AskAnybody | src/dht/Peer.cpp:420-492 | For arbitrary answers and predecessors of peers, an outcome names a preceding node only strictly between hop and id and never a distrusted one, and a successor only if it passed the check |
| LocalLookup.AskAnybodyTakesFirst | src/dht/Peer.cpp:420-492 | It is the first checked answer that names nobody distrusted, and empty without one |
| LocalLookup.StubbornHopIsAskedForever | src/dht/Peer.cpp:479-492 | A hop that keeps naming one distrusted node inside the arc is asked forever |
| LocalLookup.Ask | src/dht/Peer.cpp:420-493 | Asking a hop that answers with closer nodes ends, with an answer of that hop that names nobody distrusted |
| LocalLookup.AskIsTheDialogue | src/dht/Peer.cpp:479-492 | Each further question is about the distrusted node named before, and the last answer is the outcome |
| LocalLookup.DialogueExists | src/dht/Peer.cpp:479-492 | With a hop that answers with closer nodes there always is such a finite dialogue |
| LocalLookup.Helps | src/dht/Peer.cpp:415-493 | A returned preceding node lies strictly between the hop and the original id and is not distrusted |
| LocalLookup.Search | src/dht/Peer.cpp:313-342 | The search ends for arbitrary checked answers, only adds to the distrusted set, returns a successor some hop reported, and gives up only after distrusting every hop on its stack |
| LocalLookup.SearchIsTheTrace | src/dht/Peer.cpp:313-342 | Any course of a search in which each outcome pushes the named hop, or drops and distrusts the top one, until a successor is reported or the stack is empty, gives its result, distrusted set and number of questions |
| LocalLookup.SearchLoop | src/dht/Peer.cpp:313-342 | The loop over stack and set takes such a course; at every moment the stack strictly advances and is disjoint from the distrusted set; it gives up only after distrusting the asking node |
| LocalLookup.SearchAmongAnybody | src/dht/Peer.cpp:313-342 | The same among peers that send back anything at all; what is found was named by a hop and passed the check |
| LocalLookup.LocalIsExact | src/dht/Peer.cpp:254-343 | On an ideal ring with any member-valued fingers, the default lookup finds the owner and distrusts nobody |
| LocalLookup.LocalAgreesWithPassOn | src/dht/Peer.cpp:254-343 | The two lookups agree on ideal rings |
| LocalLookup.LocalIsLogarithmic | src/dht/Peer.cpp:313-342 | With exact fingers the default lookup asks at most 257 times |
| LocalLookup.FoundIsChecked | src/dht/Peer.cpp:429-447 | In any ring, however broken, what the search finds is another node that some member named as successor and that has a predecessor p with the id in (p, that member] |
| LocalLookup.SearchTrustsExactlyWhen | src/dht/Peer.cpp:313-342 | With good pointers a search distrusts nobody exactly when the end of the chain of closest preceding fingers names a successor, other than the asking node, whose predecessor fits; it then ends there |
| LocalLookup.TrustsExactlyWhen | src/dht/Peer.cpp:254-342 | In every reachable state, a default lookup distrusts nobody exactly when the node answers alone or that last hop passes, and then the answer may be joined on |
| LocalLookup.FoundIsSafeExactlyWhen | src/dht/Peer.cpp:429-446 | In every reachable state and after any distrust, an answer s was reported by a member n, and both it and a join on it are safe exactly when id is in (n, s] or the creating node is in [s, id) |
| LaggingRing.LocalMaySkipBase | src/dht/Peer.cpp:429-446 | A reachable three-node ring in which the default lookup distrusts an honest node, then names it, skipping owner and creating node; a join on that answer breaks the invariant |
| FingerRepair.TurnIsExact | src/dht/Dht.cpp:569-578 | Any 256 consecutive repairs in a ring that stays ideal, while other members change their fingers, make all fingers the owners of n + 2^k |
| FingerRepair.FullTurnIsExactExactlyWhen | src/dht/Dht.cpp:569-578 | From one ideal ring, any position and any member-valued table, 256 repairs make all fingers exact exactly when a finger below the first repaired one is set or the successor is at least 2^k away; so always when the first finger is set |
| FingerRepair.RepairKeepsIdealExactlyWhen | src/dht/Dht.cpp:569-578 | A repair of finger k keeps an ideal ring ideal exactly under that condition |
| FingerRepair.RepairIsAStep | src/dht/Dht.cpp:569-578 | In every state of the invariant, a repair by the default lookup is a step of the protocol |
| Replication.Replicate | src/dht/Dht.cpp:166-206 | The loop places the specified copies, and its 8-bit counters end as the numbers of copies per node |
| Replication.LimitHolds | src/dht/Dht.cpp:188-203 | No node gets more than max(1, limit) copies, the original included |
| Replication.SkippedOnlyAtLimit | src/dht/Dht.cpp:186-203 | A copy is missing only when no node was found or that node is at its limit |
| Replication.CopyKeysAreDistinct | src/dht/Dht.cpp:177-183 | Copy keys extend the key by one byte without wrapping, in ascending order |
| Replication.ReadCopies | src/dht/Dht.cpp:238-255 | The fallback loop reads the first copy whose lookup finds a node |
| Refinement.FetchReadsTheMap | src/dht/Dht.cpp:213-265 | A read returns the value the map holds, and nothing when it holds none, whatever the fallback does |
| Refinement.PutWritesTheMap | src/dht/Dht.cpp:127-211 | A put with any replication writes the map at its key and keeps every item with its owner |
| Table.PutStoresEveryCopy | src/dht/Dht.cpp:127-211 | After a put, every copy asked for whose lookup finds a node is held there, or that node holds max(1, limit) of the item and its copies; no node has more of them changed |
| Table.PutTouchesNothingElse | src/dht/Dht.cpp:127-211 | Whatever is not the original or a copy at the node found for it is as before |
| Table.FirstCopyAfterPut | src/dht/Dht.cpp:127-211 | After a put the owner holds the item, and the first copy is the new item if the limit let it be stored, and what was there before otherwise |
| Table.FetchExactly | src/dht/Dht.cpp:213-265 | A get returns the original if it is found and there, otherwise what is under the first copy key for which a node is found, also when no node is found for the key itself |
| Table.ReadAfterLoss | src/dht/Dht.cpp:166-255 | What a read returns after a put when the owner lost any set of keys: the value, nothing, or the first copy of an earlier put, with the exact condition for each |
| Table.ReadAfterSweep | src/dht/Dht.cpp:238-255 | The same when the owner swept its expired items, whatever the deadlines of item and copies |
| Table.OverwrittenValueIsRead | src/dht/Dht.cpp:238-255 | A value put with copies and overwritten without is read again once the newer original is lost, or expired and swept |
| Refinement.StaleRead | src/dht/Dht.cpp:238-255 | Such reads in a table of one node, for every hash function, key and pair of values |
| Refinement.OwnerAfterEntering | src/dht/NodeInformation.cpp:146-164 | A newcomer owns exactly (p, n]; every other id keeps its owner |
| Refinement.HandoffKeepsStores | src/dht/Peer.cpp:116-155 | A handoff moves every item to its new owner and keeps the map |
| Refinement.EnterKeepsTheMap | src/dht/Dht.cpp:489-499 | A completed join keeps the ring ideal and the map unchanged |
| Refinement.EnterIsPossible | src/dht/Dht.cpp:437-508 | Any node outside the ring can enter through any member |
| Refinement.SweepErasesNothing | src/dht/NodeInformation.cpp:19-26 | Data without a time to live survives sweeps, also after handoffs cut its expiry |
| Refinement.OpKeepsTheMap | src/dht/Dht.cpp:127-211 | Every operation of the table is the matching operation on the map |
| Refinement.RepairFindsOwner | src/dht/Dht.cpp:569-578 | A repaired finger names the owner of its start |
| Refinement.TableIsOneMap | src/dht/Dht.cpp:127-265 | After any run, a read from any member returns the value last put under the key, or nothing if there was none |
| ProofOfWork.ByteDump | src/util/util.h:192-214 | The nested loops print the specified dump |
| ProofOfWork.StrippedDump | src/util/util.h:192-214 | For every row width, the dump without white space is the plain bit string |
| ProofOfWork.LeadingZerosBoundValue | src/dht/Dht.cpp:470 | d leading zeros in a bit string mean exactly that d fits and the number is below 2^(length - d) |
| ProofOfWork.Solve | src/dht/Dht.cpp:449-487 | For any number of rounds, the solver stops at the first solving counter, with an answer that passes all three server checks, and goes on exactly while there is none |
| ProofOfWork.DecimalDenotes | src/dht/Dht.cpp:462-463 | The digits appended to the puzzle denote the counter, so each counter gives another answer |
| ProofOfWork.Check | src/dht/Peer.cpp:171-200 | The server accepts exactly the answers that pass its three checks |
| ProofOfWork.AcceptanceBoundsDigest | src/dht/Peer.cpp:177-200 | An answer is accepted exactly when it extends the address, its printed hash is right, d <= 160 and the digest is below 2^(160 - d) |
| ProofOfWork.TooDifficult | src/dht/Peer.cpp:195-200 | Beyond 160 zeros no counter solves the puzzle |

## Left out

- Crashes, `checkPredecessor` and re-joining: there is no successor list, so repair after failures is not promised by the code; all runs are failure-free.
- RPC, promises, TLS, sockets, the client API and its message codec: a call is a step or a parameter; the codec would only add easy round trips.
- Locks and threads inside one node: each operation on a node's state is atomic. Repairing the first finger is one step, because a node's own main loop is the only writer of its successor and `FirstFingerIsKept` shows that the lookup names the current successor throughout.
- Protocol.BaseIsNeverSkipped: runs do not contain joins on a default lookup whose answer s, reported by n, has the id outside (n, s]. The program's default lookup can give such answers after it distrusted somebody; `LaggingRing.LocalMaySkipBase` shows that they may break the invariant and `Protocol.JoinIsSafeExactlyWhen` says exactly when.
- Protocol.RingIsNeverSplit: the same runs.
- Refinement.TableIsOneMap: puts without a time to live by DHT_PUT, and joins that are complete before the next operation. With a time to live the table is not one map, as `Refinement.StaleRead` shows; `Table.ReadAfterSweep` says what a read returns instead. Items stored under the hash of their content are handed over by the hash of that hash, and are not covered.
- Maintenance.Dht.Join: the puzzle exchange is modelled apart, by `ProofOfWork.Solve` and `ProofOfWork.Check`; how the requests end is a parameter.
- Maintenance.PeerImpl.GetDataItemsOnJoin: requires a known predecessor, as the source dereferences it unchecked.
- ProofOfWork.Solve: covers every finite number of rounds; overflow of the `int` counter of the source is not modelled.
- The average replication index: it is accumulated in eight bits in the source; reads are proved right for every value of it.
- onDhtGetKeyIsHashOfData: it reads through a missing response.
- Explicit node ids: `setId` does not invalidate the cached id; ids come from address and port.
