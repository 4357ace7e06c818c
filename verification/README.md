# Network functions of the castan examples, verified in Dafny

The `examples` directory of the repository holds small packet processors that are written to be
analysed. This project models the ones with the hardest data structures and proves what they do
over every packet, every sequence of calls and every run.

* **VigNAT** (`examples/dpdk-nat-cc`) is a network address and port translator in the sense of
  section 2.2 of RFC 3022. Five layers of C carry it, and each has a class here:
  an open-addressing hash table that deletes without tombstones (`HashTable.dfy`), an index
  allocator threading a free list and a least-recently-used list through one array
  (`IndexChain.dfy`), its time-stamped wrapper (`DChain.dfy`), a map with two keys per value
  (`DMap.dfy`), the expirator (`Expirator.dfy`), the flow manager with the flow table
  (`FlowManager.dfy`, `Flow.dfy`) and the packet loop (`NatForward.dfy`).
  `NatSpec.dfy` is an abstract NAT: a finite map from the internal key of a flow to its external
  port and last use. `NatForward.Serve` shows that every run of the C stack is a run of the
  abstract NAT, and `NatSpec` proves exact lifetime, exact admission and the round trip of replies
  over those runs. `NatBook.dfy` adds the order in which slots are handed out and freed, and so
  which port each flow gets.
* **The chained-hash NAT** (`ChainedTable.dfy`, `HashNat.dfy`) never forgets a connection and
  searches for a free port by counting up.
* **Longest prefix match** is done twice, in a bit trie (`LpmTrie.dfy`) and in a direct table of
  2^27 cells (`LpmTable.dfy`). `Lpm.dfy` defines the longest match, `LpmAgreement.dfy` compares the
  two programs.
* **The load balancer** runs over a linear-probing ring (`LbRing.dfy`) and over an unbalanced
  search tree (`LbTree.dfy`); `LbSpec.dfy` is what both implement.
* **Circular lists in one array** (`Rings.dfy`) are rewired by a `swap` whose arguments and their
  successors may coincide.

Arrays, linked nodes and fields that the C code updates in place are arrays, objects and fields
here, and each method is proved against a function of the old state. The clock readings, random
numbers, hash functions of the chained table and of the ring, and parsed packet headers are
parameters. A key pointer of `map.c` is the number of the value slot the key lies in; `mem` is the
content of those slots. `castan_havoc(k, h, e)` is read as the assignment of `e` to `h`.

Some promises turned out to hold only under a condition, and the exact condition is proved:

* Two slots of the flow table never share an external port exactly when there are at most 65536
  of them (`NatSpec.PortsDistinctIff`), although `double-map.h` allows 140000. Exactly then does
  `allocate_flow` always keep the contract of `dmap_put` (`FlowManager.PutMeetsContractIff`), so the
  flow manager takes this as a condition on its configuration.
* The port search of the chained-hash NAT ends exactly when fewer than 65536 distinct outgoing keys
  for the same peer came before (`HashNat.SearchEndsIff`); there are runs that use them up
  (`HashNat.PeerFills`).
* The trie stores a route to a single address (/32) and never reads it, so a lookup is right exactly
  when the longest shorter rule for the address names the same port (`LpmTrie.LookUp`).
* The trie program comes up exactly when no prefix repeats, the table program exactly when no
  prefix is longer than 27 bits; when both are up they agree (`LpmAgreement.LookUpBoth`).
* A flow keeps its server exactly when the balancer's table knows it or has room for it, or there is
  only one server address (`LbSpec.KeepsIff`); ring and tree agree on all traces of a set of flows
  exactly when the set fits the ring (`LbSpec.RingLikeTreeIff`).
* `swap` keeps a ring exactly when the ring has three cells or more, or both arguments are the same
  cell (`Rings.SwapKeepsRingIff`); `shuffle` leaves smaller rings alone.

Code and comments disagree in one place: `double-chain-impl.h:41` says that an allocated cell has
different `prev` and `next` fields, but a lone allocated cell has both at 0, and the code allows for
it. The model follows the code (`IndexChain.LooksFreeIsFree`).

## Model

| member | source | states |
|---|---|---|
| `HashTable.Loop` | examples/dpdk-nat-cc/map.c:39-51 | two truncating remainders give the mathematical residue, in [0, capacity) even for negative hashes |
| `HashTable.StoredBeyond` | examples/dpdk-nat-cc/map.c:634-736 | every cell on the probe path before a stored key has a positive counter, so the early exit at 0 misses nothing |
| `HashTable.InsertedCounted` | examples/dpdk-nat-cc/map.c:1113-1219 | adding 1 on the path walked keeps each counter equal to the number of stored keys whose probe path passes over the cell |
| `HashTable.RemovedCounted` | examples/dpdk-nat-cc/map.c:794-975 | subtracting 1 on the path walked keeps the same count after a removal that leaves a hole |
| `HashTable.InsertedAbs` | examples/dpdk-nat-cc/map.c:2155-2219 | filling a free cell adds exactly one entry to the finite map the cells stand for |
| `HashTable.RemovedAbs` | examples/dpdk-nat-cc/map.c:2412-2456 | clearing one busy bit removes exactly that key from the finite map |
| `HashTable.AbsSize` | examples/dpdk-nat-cc/map.c:2496-2538 | the finite map has as many entries as there are busy cells |
| `HashTable.RoomLeft` | examples/dpdk-nat-cc/map.c:1113-1219 | there is a free cell exactly when the map has fewer entries than capacity |
| `HashTable.MemoryFrame` | examples/dpdk-nat-cc/map.c:634-736 | the table still means the same after writes to key memory that leave stored keys alone |
| `HashTable.Table.constructor` | examples/dpdk-nat-cc/map.c:1459-1523 | a valid table standing for the empty map |
| `HashTable.Table.FindKey` | examples/dpdk-nat-cc/map.c:634-736 | the cell of the key, or -1 exactly when no cell holds it, full tables and tables with holes included |
| `HashTable.Table.FindEmpty` | examples/dpdk-nat-cc/map.c:1113-1219 | the first free cell in cyclic order, -1 exactly when there is none, and exactly the counters passed over went up by 1 |
| `HashTable.Table.FindKeyRemoveChain` | examples/dpdk-nat-cc/map.c:794-975 | frees the key's cell, returns its key pointer, and lowers exactly the counters before it; without the key every counter goes down and -1 comes back |
| `HashTable.Table.Get` | examples/dpdk-nat-cc/map.c:1835-1876 | agrees with the finite map on presence and value |
| `HashTable.Table.Put` | examples/dpdk-nat-cc/map.c:2155-2219 | the finite map gains exactly the new key, and the counter invariant is kept |
| `HashTable.Table.Erase` | examples/dpdk-nat-cc/map.c:2412-2456 | the finite map loses exactly the key, whose stored pointer is returned |
| `HashTable.Table.Size` | examples/dpdk-nat-cc/map.c:2496-2538 | the counting loop returns the number of entries |
| `IndexChain.UnlinkLinked` | examples/dpdk-nat-cc/double-chain-impl.c:1896-2135 | unlinking a cell anywhere in the doubly linked list removes it from the list and touches no other cell |
| `IndexChain.AppendLinked` | examples/dpdk-nat-cc/double-chain-impl.c:1254-1472 | linking a cell before the sentinel appends it, from an empty list too |
| `IndexChain.PopFreeLinked` | examples/dpdk-nat-cc/double-chain-impl.c:1254-1472 | moving the free head drops the first free index and nothing else |
| `IndexChain.PushFreeLinked` | examples/dpdk-nat-cc/double-chain-impl.c:1896-2135 | pushing a cell puts its index first in the free list |
| `IndexChain.LooksFreeIsFree` | examples/dpdk-nat-cc/double-chain-impl.c:1916-1938 | the local test on one cell holds exactly for free indexes; an allocated cell has equal links exactly when it is alone |
| `IndexChain.ThreadedUnique` | examples/dpdk-nat-cc/double-chain-impl.h:8-44 | one cell array cannot be read as two different pairs of lists |
| `IndexChain.ThreadedLengths` | examples/dpdk-nat-cc/double-chain-impl.h:8-44 | the two lists together have exactly one place per index |
| `IndexChain.AllocateThreaded` | examples/dpdk-nat-cc/double-chain-impl.c:1254-1472 | pop then append keeps the two lists a partition of all indexes |
| `IndexChain.FreeThreaded` | examples/dpdk-nat-cc/double-chain-impl.c:1896-2135 | unlink then push keeps the partition |
| `IndexChain.RejuvenateThreaded` | examples/dpdk-nat-cc/double-chain-impl.c:2250-2478 | unlink then append keeps the partition |
| `IndexChain.Chain.constructor` | examples/dpdk-nat-cc/double-chain-impl.c:367-417 | no index allocated; every index free, to be handed out in the order 0, 1, 2, … |
| `IndexChain.Chain.AllocateNewIndex` | examples/dpdk-nat-cc/double-chain-impl.c:1254-1472 | succeeds exactly when an index is free, hands out the first free one and appends it to the use order |
| `IndexChain.Chain.FreeIndex` | examples/dpdk-nat-cc/double-chain-impl.c:1896-2135 | succeeds exactly on allocated indexes, takes the index out of the use order and frees it; otherwise changes nothing |
| `IndexChain.Chain.GetOldestIndex` | examples/dpdk-nat-cc/double-chain-impl.c:2166-2210 | the head of the use order, or failure exactly when it is empty |
| `IndexChain.Chain.RejuvenateIndex` | examples/dpdk-nat-cc/double-chain-impl.c:2250-2478 | succeeds exactly on allocated indexes and moves the index to the end of the use order |
| `DChain.UsedLast` | examples/dpdk-nat-cc/double-chain.c:611-667 | moving an index to the end with the newest stamp keeps the stamps sorted along the list |
| `DChain.HeadIsOldest` | examples/dpdk-nat-cc/double-chain.c:767-821 | the head has the smallest stamp of all |
| `DChain.DoubleChain.constructor` | examples/dpdk-nat-cc/double-chain.c:108-152 | no index in use, the free ones in the order 0, 1, 2, … |
| `DChain.DoubleChain.AllocateNewIndex` | examples/dpdk-nat-cc/double-chain.c:345-387 | takes the first free index and sets its last use to `time`; fails exactly when none is free |
| `DChain.DoubleChain.RejuvenateIndex` | examples/dpdk-nat-cc/double-chain.c:611-667 | succeeds exactly on indexes in use and sets their last use |
| `DChain.DoubleChain.ExpireOneIndex` | examples/dpdk-nat-cc/double-chain.c:767-821 | succeeds exactly when some index anywhere was last used before `time`; frees the oldest one, which is then the next to be handed out |
| `DMap.IndexesPut` | examples/dpdk-nat-cc/double-map.c:1116-1218 | adding a slot and its key keeps key table and used slots in bijection |
| `DMap.IndexesErase` | examples/dpdk-nat-cc/double-map.c:1622-1709 | the table leads from a used slot's key to that slot, and removing both keeps the bijection |
| `DMap.IndexesSize` | examples/dpdk-nat-cc/double-map.c:1116-1218 | as many keys as used slots, so a free slot means room in the key table |
| `DMap.WriteUnused` | examples/dpdk-nat-cc/double-map.c:1116-1218 | overwriting an unused slot leaves every stored key readable |
| `DMap.DoubleMap.constructor` | examples/dpdk-nat-cc/double-map.c:268-486 | no slot in use |
| `DMap.DoubleMap.GetA` | examples/dpdk-nat-cc/double-map.c:508-540 | finds a used slot by first key exactly when there is one |
| `DMap.DoubleMap.GetB` | examples/dpdk-nat-cc/double-map.c:542-585 | finds a used slot by second key exactly when there is one |
| `DMap.DoubleMap.Put` | examples/dpdk-nat-cc/double-map.c:1116-1218 | the used slots gain exactly this one; both key tables stay in bijection with them |
| `DMap.DoubleMap.GetValue` | examples/dpdk-nat-cc/double-map.c:1220-1251 | the value that was put |
| `DMap.DoubleMap.Erase` | examples/dpdk-nat-cc/double-map.c:1622-1709 | the used slots lose exactly this one; both key tables stay in bijection |
| `DMap.DoubleMap.Size` | examples/dpdk-nat-cc/double-map.c:1744-1762 | the stored count is the number of used slots |
| `Expirator.ExpireItems` | examples/dpdk-nat-cc/expirator.c:29-106 | terminates; both structures lose exactly the indexes last used before `time`, oldest first, and the free list gains them in that order; returns how many; the two stay in step |
| `Flow.Mix` | examples/dpdk-nat-cc/flow.c:60-87 | the accumulated polynomial never leaves the range of `long long` |
| `Flow.IntKeyHash` | examples/dpdk-nat-cc/flow.c:60-87 | the hash fits an `int` and is not negative |
| `Flow.ExtKeyHash` | examples/dpdk-nat-cc/flow.c:89-116 | the hash fits an `int` and is not negative |
| `Flow.HashesAreWeightedSums` | examples/dpdk-nat-cc/flow.c:60-116 | both hashes are the sum of the fields weighted by powers of 31, modulo INT_MAX |
| `FlowManager.NewFlowAt` | examples/dpdk-nat-cc/flowtable.c:39-74 | a new flow with its keys filled in belongs in slot i with port start + i |
| `FlowManager.SessionsTouch` | examples/dpdk-nat-cc/flowmanager.c:70-74 | rejuvenating a slot is touching one session of the abstract state |
| `FlowManager.SessionsOpen` | examples/dpdk-nat-cc/flowmanager.c:48-68 | filling a slot is opening one session of the abstract state |
| `FlowManager.SessionsExpire` | examples/dpdk-nat-cc/flowmanager.c:92-97 | dropping stale slots is expiry of the abstract state |
| `FlowManager.EmptySlotPortFree` | examples/dpdk-nat-cc/flowmanager.c:48-68 | the port of an unused slot is used by no live session |
| `FlowManager.ExtKeyAnswers` | examples/dpdk-nat-cc/nat_forward_vignat.c:68-82 | the swapped key of a packet equals a flow's external key exactly when the packet answers that flow |
| `FlowManager.NewFlowClashesWithNone` | examples/dpdk-nat-cc/flowmanager.c:48-68 | when a flow is added neither of its keys is in the map, so the put succeeds and no index leaks |
| `FlowManager.BookTouch` | examples/dpdk-nat-cc/flowmanager.c:70-74 | rejuvenating a slot moves its entry to the end of the book |
| `FlowManager.BookOpen` | examples/dpdk-nat-cc/flowmanager.c:48-68 | filling the first free slot adds an entry at the end of the book |
| `FlowManager.BookExpire` | examples/dpdk-nat-cc/flowmanager.c:92-97 | freeing the stale slots one after the other is expiry of the book |
| `FlowManager.BookAgrees` | examples/dpdk-nat-cc/flowmanager.c:48-97 | the book lists exactly the sessions, each with its slot, port and last use |
| `FlowManager.Opens` | examples/dpdk-nat-cc/flowmanager.c:48-68 | a new flow in an unused slot clashes with none, gets the slot's port, and opens one session and one entry |
| `FlowManager.PutMeetsContractIff` | examples/dpdk-nat-cc/flowmanager.c:48-68 | new flows in unused slots always have a new external key exactly when there are at most 65536 slots |
| `FlowManager.FlowManager.constructor` | examples/dpdk-nat-cc/flowmanager.c:29-46 | no live sessions; slots free in the order 0, 1, 2, … |
| `FlowManager.FlowManager.ExpireFlows` | examples/dpdk-nat-cc/flowmanager.c:92-97 | exactly the stale sessions go, none before the clock reaches the expiration time; their slots are freed oldest first; returns how many |
| `FlowManager.FlowManager.AddFlow` | examples/dpdk-nat-cc/flowtable.c:60-74 | stores the flow with both keys filled from its fields |
| `FlowManager.FlowManager.GetFlow` | examples/dpdk-nat-cc/flowtable.c:19-21 | the flow in the slot |
| `FlowManager.FlowManager.AllocateFlow` | examples/dpdk-nat-cc/flowmanager.c:48-68 | succeeds exactly below the flow limit; the new session gets the port of the first free slot and the current time |
| `FlowManager.FlowManager.FillSlot` | examples/dpdk-nat-cc/flowmanager.c:48-68 | the same on the slots: the first free index now holds the new flow with its keys filled in |
| `FlowManager.FlowManager.SlotsAgree` | examples/dpdk-nat-cc/flowmanager.c:29-97 | in every valid state the book and the sessions are views of one another |
| `FlowManager.FlowManager.GetAndRejuvenate` | examples/dpdk-nat-cc/flowmanager.c:70-74 | returns the flow and touches exactly its session |
| `FlowManager.FlowManager.GetFlowByIntKey` | examples/dpdk-nat-cc/flowmanager.c:76-82 | finds and touches the session of the key exactly when it is live |
| `FlowManager.FlowManager.GetFlowByExtKey` | examples/dpdk-nat-cc/flowmanager.c:84-90 | finds and touches the session a packet answers exactly when there is one |
| `NatForward.NfCoreProcess` | examples/dpdk-nat-cc/nat_forward_vignat.c:41-151 | one packet is one step of the abstract NAT and of the book: same rewrite, port, drop and device, and matching state |
| `NatForward.Serve` | examples/dpdk-nat-cc/nf_main.c:182-223 | every packet sequence with a clock that does not go back is a run of the abstract NAT that hands out ports as the book says |
| `NatSpec.PortsDistinctIff` | examples/dpdk-nat-cc/flowmanager.c:48-68 | slots have pairwise different ports exactly when there are at most 65536 |
| `NatSpec.StepUses` | examples/dpdk-nat-cc/nat_forward_vignat.c:41-151 | each packet is dropped with nothing but expiry, or uses exactly one session, whose port stays or is new and free |
| `NatSpec.StepCoherent` | examples/dpdk-nat-cc/nat_forward_vignat.c:41-151 | distinct sessions keep distinct ports of the pool, at most the limit, none for the outside device |
| `NatSpec.RunCoherent` | examples/dpdk-nat-cc/nf_main.c:182-223 | that holds in every reachable state |
| `NatSpec.OnTheWire` | examples/dpdk-nat-cc/nat_forward_vignat.c:41-151 | field by field over runs: an inside packet leaves from the external address and port start + j for some slot j, otherwise unchanged, or is dropped as it came; an outside packet keeps its source or is dropped |
| `NatSpec.LastUseRecorded` | examples/dpdk-nat-cc/flowmanager.c:70-97 | the recorded last use is the time of a packet of the session and no later packet of it exists |
| `NatSpec.LiveIffRecentlyUsed` | examples/dpdk-nat-cc/flowmanager.c:92-97 | after expiry a session is live exactly when a packet used it within the expiration time |
| `NatSpec.HeldIffRecentlyUsed` | examples/dpdk-nat-cc/nat_forward_vignat.c:41-151 | the same for the sessions held once the packet has been processed |
| `NatSpec.RefusedIffFull` | examples/dpdk-nat-cc/nat_forward_vignat.c:116-124 | an inside packet is refused exactly when its flow is new and the limit of recently used flows is reached |
| `NatSpec.KeepsPort` | examples/dpdk-nat-cc/nat_forward_vignat.c:99-136 | a session keeps its external port while no gap between its packets exceeds the expiration time |
| `NatSpec.HasOrigin` | examples/dpdk-nat-cc/nat_forward_vignat.c:99-136 | every session goes back to a packet that left through it, unexpired ever since |
| `NatSpec.AnsweredIsUsed` | examples/dpdk-nat-cc/nat_forward_vignat.c:68-98 | a packet that answers a live session uses that session and no other |
| `NatSpec.ReplyReachesSender` | examples/dpdk-nat-cc/nat_forward_vignat.c:68-136 | round trip over runs: an outside packet reaches a session exactly when it replies to a packet that session sent and the session is unexpired; it is then rewritten to the sender's address, port and device, and otherwise dropped |
| `NatBook.SlotsInOrder` | examples/dpdk-nat-cc/flowmanager.c:48-68 | until something lapses slots are handed out in the order 0, 1, 2, … |
| `NatBook.EarlyNoLapse` | examples/dpdk-nat-cc/flowmanager.c:92-97 | nothing lapses within the expiration time of the first packet |
| `NatBook.NthFlowPort` | examples/dpdk-nat-cc/flowmanager.c:48-68 | while nothing has lapsed, the first packet of a flow that m others came before leaves from port (start + m) mod 65536 |
| `NatBook.FirstFlowPort` | examples/dpdk-nat-cc/flowmanager.c:48-68 | the first packet sent out leaves from the start port |
| `NatBook.ExpiredSplit` | examples/dpdk-nat-cc/expirator.c:29-106 | expiry takes the stale flows off the front, and the slot of the last of them comes first |
| `NatBook.RunSorted` | examples/dpdk-nat-cc/double-chain.c:611-667 | in every reachable state the book is in the order of last use |
| `NatBook.LastFreedFirst` | examples/dpdk-nat-cc/flowmanager.c:48-97 | a flow opened by a packet at whose arrival sessions lapse gets the port of the one among them that was used last |
| `ChainedTable.Table.constructor` | examples/dpdk-nat-basichash/dpdk-nat-basichash.c:308-310 | the empty map |
| `ChainedTable.Table.Get` | examples/dpdk-nat-basichash/dpdk-nat-basichash.c:394-407 | the entry of the key, or none exactly when the key is absent |
| `ChainedTable.Table.Set` | examples/dpdk-nat-basichash/dpdk-nat-basichash.c:377-392 | the finite map gains or overwrites exactly this key |
| `HashNat.StepPaired` | examples/dpdk-nat-basichash/dpdk-nat-basichash.c:501-548 | each packet keeps entries in forward and reverse pairs and overwrites none |
| `HashNat.OneToOne` | examples/dpdk-nat-basichash/dpdk-nat-basichash.c:501-548 | forward and reverse entries correspond one to one and translations are distinct |
| `HashNat.RunPaired` | examples/dpdk-nat-basichash/dpdk-nat-basichash.c:501-615 | entries are paired in every reachable state |
| `HashNat.NeverOverwritten` | examples/dpdk-nat-basichash/dpdk-nat-basichash.c:377-392 | no entry is ever overwritten, over any run |
| `HashNat.SentIsStored` | examples/dpdk-nat-basichash/dpdk-nat-basichash.c:511-615 | a packet sent on has its translation in the table; only packets to the NAT are dropped |
| `HashNat.StoredWasSent` | examples/dpdk-nat-basichash/dpdk-nat-basichash.c:538-548 | every forward entry goes back to a packet that was sent as that entry says |
| `HashNat.AnswerReturns` | examples/dpdk-nat-basichash/dpdk-nat-basichash.c:501-615 | round trip over runs: a packet to the NAT is sent on exactly when it answers an earlier one, and goes to where that one came from |
| `HashNat.TranslationFixed` | examples/dpdk-nat-basichash/dpdk-nat-basichash.c:501-615 | two outgoing packets leave under the same key exactly when they have the same key |
| `HashNat.FieldsKept` | examples/dpdk-nat-basichash/dpdk-nat-basichash.c:511-615 | field by field over runs: a packet sent out keeps destination and protocol and has the NAT as source; one sent in keeps source and protocol |
| `HashNat.TakenIff` | examples/dpdk-nat-basichash/dpdk-nat-basichash.c:521-534 | a port is taken for a peer exactly when an earlier packet went out to that peer from it |
| `HashNat.NewFlowPort` | examples/dpdk-nat-basichash/dpdk-nat-basichash.c:521-548 | the first packet of a flow leaves from the cyclically first port, at or after its own, that no earlier packet to the peer left from |
| `HashNat.EndsIff` | examples/dpdk-nat-basichash/dpdk-nat-basichash.c:521-534 | in any table the port search ends exactly when fewer than 65536 reverse entries share the peer |
| `HashNat.OutgoingStored` | examples/dpdk-nat-basichash/dpdk-nat-basichash.c:501-548 | an outgoing key is in the table exactly when a packet with it came before |
| `HashNat.PeerSize` | examples/dpdk-nat-basichash/dpdk-nat-basichash.c:521-548 | the reverse entries for a peer are as many as the distinct outgoing keys for it so far |
| `HashNat.SearchEndsIff` | examples/dpdk-nat-basichash/dpdk-nat-basichash.c:521-534 | in every run the port search ends exactly when fewer than 65536 distinct outgoing keys for the peer came before |
| `HashNat.RunExists` | examples/dpdk-nat-basichash/dpdk-nat-basichash.c:501-615 | every packet sequence whose searches end has a run |
| `HashNat.PeerFills` | examples/dpdk-nat-basichash/dpdk-nat-basichash.c:521-534 | for every peer there is a run after which the search for a new key does not end |
| `HashNat.Nat.constructor` | examples/dpdk-nat-basichash/dpdk-nat-basichash.c:308-310 | an empty table |
| `HashNat.Nat.FindPort` | examples/dpdk-nat-basichash/dpdk-nat-basichash.c:521-534 | whenever it ends, the cyclically first free port at or after the source port |
| `HashNat.Nat.DispatchPacket` | examples/dpdk-nat-basichash/dpdk-nat-basichash.c:501-615 | one packet is one step of the paired-table machine, with the header rewritten in place |
| `HashNat.Serve` | examples/dpdk-nat-basichash/dpdk-nat-basichash.c:501-615 | every packet sequence whose searches end is served as a run |
| `Lpm.Longest` | examples/dpdk-lpm-btrie/dpdk-lpm-btrie.c:328-351 | the reference: a matching prefix of greatest length up to a bound, none exactly when none matches |
| `Lpm.KeptAre` | examples/dpdk-lpm-btrie/dpdk-lpm-btrie.c:396-408 | the rules entered are exactly those with a port from 0 to the number of devices, in file order |
| `Lpm.RoutesAre` | examples/dpdk-lpm-da/dpdk-lpm-da.c:328-350 | a prefix has a route exactly when some rule has it, and its port is that of the last such rule |
| `Lpm.NoRepeatsMore` | examples/dpdk-lpm-btrie/dpdk-lpm-btrie.c:320-325 | a list without repeats stays one exactly when the new prefix has no route yet |
| `Lpm.RouteOfWinner` | examples/dpdk-lpm-btrie/dpdk-lpm-btrie.c:328-351 | the route of an address is the port of the longest rule that covers it, and there is one as soon as a rule covers it |
| `LpmTrie.Trie.constructor` | examples/dpdk-lpm-btrie/dpdk-lpm-btrie.c:296 | the empty rule table |
| `LpmTrie.Trie.Grow` | examples/dpdk-lpm-btrie/dpdk-lpm-btrie.c:304-309 | hanging a new node at an empty link keeps the trie and the rules it stands for |
| `LpmTrie.Trie.SetPrefixPort` | examples/dpdk-lpm-btrie/dpdk-lpm-btrie.c:298-326 | adds the rule, or fails without change exactly when the prefix already has a port |
| `LpmTrie.Trie.SetPort` | examples/dpdk-lpm-btrie/dpdk-lpm-btrie.c:320-325 | storing a port in a node adds exactly that rule; the null port adds none |
| `LpmTrie.Trie.GetIpPort` | examples/dpdk-lpm-btrie/dpdk-lpm-btrie.c:328-351 | the port of the longest matching rule of length at most 31, failure exactly when there is none |
| `LpmTrie.HostRouteMissed` | examples/dpdk-lpm-btrie/dpdk-lpm-btrie.c:328-351 | a lone /32 rule is entered and wins, yet no rule the walk reads does, whatever its address and port |
| `LpmTrie.Build` | examples/dpdk-lpm-btrie/dpdk-lpm-btrie.c:353-412 | comes up exactly when no prefix of the rules kept repeats, and then holds exactly those rules; otherwise exits |
| `LpmTrie.LookUp` | examples/dpdk-lpm-btrie/dpdk-lpm-btrie.c:328-412 | start and lookup: the port of the longest covering rule of at most 31 bits, failure exactly when there is none; right exactly when a /32 rule for the address names the port of the longest shorter one |
| `LpmTrie.ExactIffShadowed` | examples/dpdk-lpm-btrie/dpdk-lpm-btrie.c:328-351 | an answer from the prefixes of at most 31 bits is the true longest match exactly under that condition on the rules |
| `LpmTable.CellsOfPrefix` | examples/dpdk-lpm-da/dpdk-lpm-da.c:338-346 | the range of cells written for a prefix is exactly where the addresses under it are looked up |
| `LpmTable.CellInTable` | examples/dpdk-lpm-da/dpdk-lpm-da.c:338-346 | that range stays inside the table |
| `LpmTable.CellPerLongPrefix` | examples/dpdk-lpm-da/dpdk-lpm-da.c:303-326 | prefixes of up to 27 bits, and 2^27 cells |
| `LpmTable.CoversBlock` | examples/dpdk-lpm-da/dpdk-lpm-da.c:338-342 | a rule covers exactly the aligned block of 2^(32 - length) addresses around its own |
| `LpmTable.CellForMore` | examples/dpdk-lpm-da/dpdk-lpm-da.c:343-346 | overwriting the covered cells that hold no longer match is adding one route, for every order of rules |
| `LpmTable.Table.constructor` | examples/dpdk-lpm-da/dpdk-lpm-da.c:311-326 | every cell says that there is no route |
| `LpmTable.Table.SetPrefixPort` | examples/dpdk-lpm-da/dpdk-lpm-da.c:328-350 | refuses lengths over 27 without change; otherwise the routing table the cells stand for gains or overwrites exactly this prefix |
| `LpmTable.Table.GetIpPort` | examples/dpdk-lpm-da/dpdk-lpm-da.c:352-356 | the port of the longest match in the routing table, 0 if there is none; always succeeds |
| `LpmTable.Build` | examples/dpdk-lpm-da/dpdk-lpm-da.c:358-417 | comes up exactly when no rule kept is longer than 27 bits, and then holds exactly the routes of those rules; otherwise exits |
| `LpmTable.LookUp` | examples/dpdk-lpm-da/dpdk-lpm-da.c:352-417 | start and lookup: the port of the longest covering rule, the last of those for its prefix, or 0 if no rule covers the address |
| `LpmAgreement.LookUpBoth` | examples/dpdk-lpm-da/dpdk-lpm-da.c:328-417 | both programs on the same rules: when each comes up; when both do, the same port for every covered address, and failure and 0 for any other |
| `LbSpec.BoundedLikeUnbounded` | examples/dpdk-lb-hashring/dpdk-lb-hashring.c:423-438 | while distinct keys fit the table, a bounded table serves as an unbounded one |
| `LbSpec.RingLikeTree` | examples/dpdk-lb-hashring/dpdk-lb-hashring.c:552-572 | for every trace of at most TABLE_SIZE distinct keys ring and tree choose the same servers |
| `LbSpec.RingLikeTreeIff` | examples/dpdk-lb-hashring/dpdk-lb-hashring.c:552-572 | with more than one server address, ring and tree agree on all traces of a set of flows exactly when the set fits the ring |
| `LbSpec.Sticky` | examples/dpdk-lb-hashring/dpdk-lb-hashring.c:552-572 | a remembered flow keeps its server over the whole trace, in a table of any capacity, full or not |
| `LbSpec.OneServer` | examples/dpdk-lb-tree/dpdk-lb-tree.c:476-502 | in the tree all packets of a flow go to one server |
| `LbSpec.Dealt` | examples/dpdk-lb-hashring/dpdk-lb-hashring.c:552-572 | a flow that a full table does not know gets one server after the other |
| `LbSpec.KeepsIff` | examples/dpdk-lb-hashring/dpdk-lb-hashring.c:552-572 | a flow keeps its server over every continuation exactly when it is known, there is room for it, or all servers have one address |
| `LbSpec.BoundedFlows` | examples/dpdk-lb-hashring/dpdk-lb-hashring.c:423-438 | a bounded table never holds more flows than cells and only a full one forgets a flow |
| `LbSpec.FairShare` | examples/dpdk-lb-tree/dpdk-lb-tree.c:488-492 | of m turns over n servers each gets the floor or the ceiling of m/n, the first m mod n the ceiling |
| `LbSpec.StepBalanced` | examples/dpdk-lb-tree/dpdk-lb-tree.c:476-502 | each packet keeps the flows shared out by turns |
| `LbSpec.AlwaysFair` | examples/dpdk-lb-tree/dpdk-lb-tree.c:476-502 | of the m distinct flows of any trace each of n active servers is given floor or ceiling of m/n, the first m mod n the ceiling; for the ring too while the flows fit |
| `LbSpec.FlowsRemembered` | examples/dpdk-lb-tree/dpdk-lb-tree.c:476-502 | an unbounded table remembers exactly the flows of the trace, each with the server it was given |
| `LbSpec.NewFlowServer` | examples/dpdk-lb-tree/dpdk-lb-tree.c:486-502 | the first packet of a flow that m others came before goes to server m mod n, n counted up to the first zero address |
| `LbSpec.ForgottenWhenFull` | examples/dpdk-lb-hashring/dpdk-lb-hashring.c:423-438 | once the ring is full a new flow moves to the next server with its next packet |
| `LbRing.RoomIffUnused` | examples/dpdk-lb-hashring/dpdk-lb-hashring.c:423-438 | there is an unused cell exactly when fewer keys are stored than cells |
| `LbRing.GapMeansAbsent` | examples/dpdk-lb-hashring/dpdk-lb-hashring.c:440-456 | a search that meets an unused cell, or all cells, without the key proves it absent |
| `LbRing.Filled` | examples/dpdk-lb-hashring/dpdk-lb-hashring.c:423-438 | filling the first gap of the key's path adds exactly that key |
| `LbRing.Overwritten` | examples/dpdk-lb-hashring/dpdk-lb-hashring.c:423-438 | rewriting the value in the key's cell changes exactly that key |
| `LbRing.Ring.constructor` | examples/dpdk-lb-hashring/dpdk-lb-hashring.c:345-359 | the empty map |
| `LbRing.Ring.Get` | examples/dpdk-lb-hashring/dpdk-lb-hashring.c:440-456 | agrees with the finite map, full table included |
| `LbRing.Ring.Set` | examples/dpdk-lb-hashring/dpdk-lb-hashring.c:423-438 | adds or overwrites the key, and silently does nothing for a new key in a full table |
| `LbRing.Balancer.constructor` | examples/dpdk-lb-hashring/dpdk-lb-hashring.c:552-572 | no flows, first server next |
| `LbRing.Balancer.Choose` | examples/dpdk-lb-hashring/dpdk-lb-hashring.c:552-572 | one packet is one step of the bounded balancer |
| `LbRing.Serve` | examples/dpdk-lb-hashring/dpdk-lb-hashring.c:552-572 | the servers of every trace are those of the bounded balancer |
| `LbTree.Trichotomy` | examples/dpdk-lb-tree/dpdk-lb-tree.c:315-328 | the key order is strict and total |
| `LbTree.StepDown` | examples/dpdk-lb-tree/dpdk-lb-tree.c:364-380 | going left or right as the order says never leaves the searched key behind |
| `LbTree.GrownOrdered` | examples/dpdk-lb-tree/dpdk-lb-tree.c:347-362 | a node hung where its key's walk ends keeps the tree a search tree |
| `LbTree.Tree.constructor` | examples/dpdk-lb-tree/dpdk-lb-tree.c:343-345 | the empty map |
| `LbTree.Tree.Get` | examples/dpdk-lb-tree/dpdk-lb-tree.c:364-380 | agrees with the finite map |
| `LbTree.Tree.Grow` | examples/dpdk-lb-tree/dpdk-lb-tree.c:357-360 | adds a node for the key at the end of its walk and keeps a search tree |
| `LbTree.Tree.Set` | examples/dpdk-lb-tree/dpdk-lb-tree.c:347-362 | adds or overwrites exactly this key |
| `LbTree.Tree.SetValue` | examples/dpdk-lb-tree/dpdk-lb-tree.c:361 | changes the value of exactly this key |
| `LbTree.Balancer.constructor` | examples/dpdk-lb-tree/dpdk-lb-tree.c:476-502 | no flows, first server next |
| `LbTree.Balancer.Choose` | examples/dpdk-lb-tree/dpdk-lb-tree.c:476-502 | one packet is one step of the unbounded balancer |
| `LbTree.Serve` | examples/dpdk-lb-tree/dpdk-lb-tree.c:476-502 | the servers of every trace are those of the unbounded balancer |
| `Rings.SwapRing` | examples/cache-effects/probe-slices.c:107-129 | on a ring of three or more, in every case of adjacency, the two successors change places and cells outside the ring keep their links |
| `Rings.SwapKeepsRingIff` | examples/cache-effects/probe-slices.c:107-129 | one ring with the same members is left exactly when the ring has three cells or more or both arguments are the same |
| `Rings.RingsDisjointOrSame` | examples/cache-effects/probe-slices.c:87-105 | two rings of one array that share a cell have the same members |
| `Rings.OthersStay` | examples/cache-effects/probe-slices.c:107-155 | rings with other members survive any change of links on one ring |
| `Rings.GetSize` | examples/cache-effects/probe-slices.c:55-71 | the number of cells of the ring, 0 for no ring |
| `Rings.Insert` | examples/cache-effects/probe-slices.c:73-85 | the loose cell comes right after the entry, or becomes the ring; no other link changes and every other ring stays a ring |
| `Rings.DropNext` | examples/cache-effects/probe-slices.c:87-105 | exactly the next cell comes loose, the rest stays a ring, the entry moves off the dropped cell, and every other ring stays a ring |
| `Rings.Swap` | examples/cache-effects/probe-slices.c:107-129 | in place: three or more cells stay one ring with the two successors exchanged, equal arguments change nothing, a pair comes apart in a fixed way; every other ring stays a ring |
| `Rings.EnterAt` | examples/cache-effects/probe-slices.c:55-71 | a ring can be read from any of its cells |
| `Rings.Shuffle` | examples/cache-effects/probe-slices.c:131-155 | for any random numbers the ring is left in exactly the order its draws say, read from the same entry, and every other ring stays a ring |
| `Rings.Round` | examples/cache-effects/probe-slices.c:139-148 | one round moves the successor of the current cell as its draw says |
| `Rings.WalkOn` | examples/cache-effects/probe-slices.c:139-144 | the inner walk ends c + 1 cells past the current one, going round as often as needed |
| `Rings.MovedAt` | examples/cache-effects/probe-slices.c:107-148 | cell by cell: draw 0 and draw n - 1 move nothing, draw n - 2 puts the successor just before the current cell, any other exchanges it with the cell c + 2 on |
| `Rings.MovedIsSwap` | examples/cache-effects/probe-slices.c:107-129 | the order a round names is the ring the swap leaves |
| `Rings.OneReading` | examples/cache-effects/probe-slices.c:55-71 | a ring has one reading from each cell, so the order is determined |
| `Rings.DrawsAre` | examples/cache-effects/probe-slices.c:139-140 | a draw is below the size of its round, and which draws have a number: all of them up to 46340 cells |
| `Rings.OrdersReached` | examples/cache-effects/probe-slices.c:131-155 | the orders that random numbers can lead to are exactly those of the draws with round t below n - t |
| `Rings.ThreeTurned` | examples/cache-effects/probe-slices.c:131-155 | with three cells, draws 1, 0, 0 give the other order |

## Left out

- DPDK calls, device set-up, packet buffers, MAC addresses and checksums: a packet is its parsed header fields.
- Packets that are not IPv4 with TCP or UDP: VigNAT drops them, which is modelled; the other programs also let them go before the modelled part, and there they are left out.
- Command line, configuration and routing file parsing with its limit on lines, logging and address formatting: no property of interest.
- Failing memory allocation in `dmap_allocate`, `dchain_allocate` and the node allocations: allocation succeeds here.
- `dmap_put` and `dmap_erase` always return 1; that result is not modelled.
- `map_put` on a full table or with a stored key, `map_erase` of an absent key, and clocks that go back: the contracts in the source exclude them from callers.
- Branches for `__clang__` and `KLEE_VERIFICATION`, which stub behaviour for symbolic execution.
- Rules of length 0 and 1 in the direct table, and of more than 32 bits in the trie: the C shifts are undefined for them.
- FlowManager.FlowManager.constructor: takes at most 65536 flows, because with more `allocate_flow` breaks the contract of `dmap_put` (`FlowManager.PutMeetsContractIff`).
- HashNat.Serve: takes packet sequences whose port searches end, because on any other the program does not come back (`HashNat.SearchEndsIff`).
- The bodies of the hash functions of the chained table and of the ring: any function into the table's range is allowed, so the results hold for the one that is used.
- The outgoing half of the load balancers, which only replaces the source address.
- `dpdk-lb-basichash.c`, the programs in `examples/data-structures` and the users of foreign hash and LPM libraries: they repeat structures modelled here, or have their core elsewhere.
- Timing probes, contention-set processing, rainbow tables and scripts: driven by measurements, or without a hard property.
