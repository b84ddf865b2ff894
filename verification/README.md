# Verified model of the btm-stats node core

A Dafny model of the parts of the btm-stats node (a reduced Bytom node) that carry its hardest invariants:

- **Multiplexed connection** (`MuxModel`, `MuxDelivery`, `MuxEmpty`, `MuxWakeup`, `MuxDrain`, `MuxFairness`, `MuxCode`,
  `MuxDrive`): a step system in which senders, the send routine and the receiver interleave freely, with delivery, wake-up,
  drain and fairness theorems over whole runs; and the `Channel` and `MConnection` methods on the heap, whose calls on a new
  connection are proved to be a run of it.
- **Address book** (`AddrBookModel`, `AddrBookRuns`, `AddrBookCode`, `AddrBookReads`): lookup, buckets, references and
  counters kept in agreement by every run; the heap classes; selection, picking, saving and loading.
- **Main-chain index** (`BlockIndex`): the in-place update with early stop, over a reused backing array.
- **Secret connection** (`SecretNonces`, `SecretStream`): 192-bit nonces and the framed byte stream.
- **Wire codec and transaction parser** (`Codec`, `CodecCode`, `Hash`, `TxParser`, `TxWriter`, `TxCode`), **hash pre-images**
  (`HashEncoding`, `AssetId`) and **Merkle roots** (`Merkle`).
- **Transaction sync** (`TxSync`), **block fetcher** (`Fetcher`, `Float32`), **peer set** (`PeerSet`) and **block
  subsidy** (`Subsidy`).

`Bytes`, `BigEndian`, `Powers`, `Products` and `Totals` are shared helpers. Each protocol is a value model with lemmas about
all its runs, and where the source updates objects in place, classes and loops whose contracts tie them to that model; for
the connection, the address book, the main chain and the transaction sync, whole sequences of calls on the objects too.

What the chain, the clock, random draws, map iteration order, the hash functions and the sealing of frames answer are
parameters. Hash functions are arbitrary: binding claims name the strings that would have to collide. Sealing is any pair
of functions of which one undoes the other.

Where a promise turned out not to hold of the code, the exact condition is proved for all inputs:

- an empty message can be lost by the multiplexer, by two kinds of scan step (`MuxEmpty.DeliveryIff`);
- equal ephemeral keys give both sides the same nonces in the wrong order (`SecretNonces.NoncesAgreeIff`);
- the buffered branch of the secret connection's `Read` copies bytes and reports 0 (`SecretStream.ReadKeepsStream`,
  `SecretStream.BufferedReadReportsZero`);
- `PickAddress` finds nothing when the bias demands new addresses and there are none, although the book is not empty
  (`AddrBookReads.PickAddress`, `AddrBookReads.PicksNothing`);
- single-precision priorities let the fetcher stop too early at some heights, the first being 2^24 - 1
  (`Fetcher.StopsRightIff`);
- nil pointers make encodings of different values agree (`HashEncoding.UniquelyDecodableIff`);
- a message kept by the receive callback can be overwritten by the next packet (`MuxCode.KeptMessageIntactIff`,
  `MuxCode.KeptMessageOverwritten`);
- a saved book whose addresses repeat, or whose entries or buckets are out of shape, loads into an inconsistent one
  (`AddrBookReads.LoadOkIff`);
- `ComputeAssetID` ignores a write error its comment calls impossible; programs over 2^31-1 bytes then share an id, and a
  missing data hash is the zero hash (`AssetId.PreImageIff`).

In `BlockIndex` the nodes are taken with their parent one lower and without a parent exactly at height 0. `NewBlockNode`
is not part of this model.

The bucket limit is checked with `>`, so buckets reach 65 entries; the model follows the code.

## Model

| member | source | states |
|---|---|---|
| `MuxDelivery.DeliveryTheorem` | p2p/connection/connection.go:579-672 | in every interleaving of senders, scan steps, writes, failures and receives, a channel given only non-empty messages has delivered a byte-exact in-order prefix of what it accepted; unless a write failed on it the rest is exactly wire, sending and queue; sendQueueSize plus increments not yet applied counts that rest |
| `MuxDelivery.StepKeeps` | p2p/connection/connection.go:579-672 | every action of every party keeps the conservation, prefix, counting and chosen-channel invariants of every channel |
| `MuxDelivery.WriteConserves` | p2p/connection/connection.go:628-653 | cutting a packet of at most 1024 bytes and writing it leaves the byte stream of the channel as it was |
| `MuxDelivery.ScanConserves` | p2p/connection/connection.go:616-624 | loading the next message for sending leaves the byte stream of the channel as it was |
| `MuxDelivery.ReceiveOnWire` | p2p/connection/connection.go:657-672 | receiving a packet moves bytes from the wire to the receiver without changing what the two mean together |
| `MuxDelivery.NoOverflowTheorem` | p2p/connection/connection.go:657-660 | if every message is non-empty and within the receiver's capacity, no packet of any run is refused as too large |
| `MuxDelivery.NothingOversized` | p2p/connection/connection.go:657-672 | in every run, whatever is sent and however it is cut, a channel never collects and never delivers more bytes than its capacity |
| `MuxEmpty.DeliveryIff` | p2p/connection/connection.go:357-377 | for all messages, empty ones included: in every run without a failed write on the channel, what was delivered or is on its way is what was accepted with one empty message taken out, in place, for each losing scan, so nothing is missing exactly if no scan was a losing one; sendQueueSize keeps counting the lost ones |
| `MuxEmpty.ScanAccountsIff` | p2p/connection/connection.go:360-374 | a step of the scan keeps every message of a channel accounted for exactly if it neither loads an empty one behind a candidate it keeps, nor drops the channel, with an empty one loaded, for a smaller ratio |
| `MuxEmpty.WriteTracks` | p2p/connection/connection.go:628-653 | writing the chosen packet, of an empty message too, moves the message along and changes nothing else |
| `MuxEmpty.QuietLosesOnlyEmpty` | p2p/connection/connection.go:283-377 | in a quiet connection every channel has delivered what it accepted, in order, with one empty message taken out for each losing scan |
| `MuxEmpty.NoLossDeliversPrefix` | p2p/connection/connection.go:579-672 | a run without losing scans has delivered a prefix of what was accepted, empty messages included |
| `MuxEmpty.SingleChannelLosesNothing` | p2p/connection/connection.go:360-374 | a connection with one channel has no losing scans |
| `MuxDelivery.EmptyMessageIsLost` | p2p/connection/connection.go:357-377 | losing scans do happen: a reachable state in which an accepted empty message is neither delivered nor on its way |
| `MuxWakeup.NoLostWakeup` | p2p/connection/connection.go:283-377 | in every run, when the send routine waits, the token slot is empty and no sender is between queueing and waking, no channel holds data, although the scan goes channel by channel against concurrent senders |
| `MuxWakeup.WakeStep` | p2p/connection/connection.go:311-320 | every action keeps the wake-up invariant, including enqueues behind a scan in progress and the re-armed token after a full batch |
| `MuxWakeup.QuietMeansDelivered` | p2p/connection/connection.go:283-338 | a waiting routine with no wake-up coming and an empty wire means every channel has delivered exactly what it accepted |
| `MuxDrain.MovesUseWork` | p2p/connection/connection.go:341-395 | every scan, write, receive, count, wake or token step strictly lowers a measure of the work left, in which a queued or chosen empty message is one packet |
| `MuxDrain.StuckMeansQuiet` | p2p/connection/connection.go:283-338 | a running connection in which none of those steps is enabled is quiet, so there is no deadlock with data left |
| `MuxDrain.DrainTheorem` | p2p/connection/connection.go:283-395 | for all messages within the receiver's capacity, empty ones included: continued without new messages, stop or failure, a run makes at most Work moves, and when none is left every channel has delivered what it accepted, in order, with one empty message taken out for each losing scan of the whole run; a channel given only non-empty messages has delivered all |
| `MuxDrain.NoOverflowAtAll` | p2p/connection/connection.go:657-660 | in a run without a failed write, messages within the receiver's capacity, empty or not, are never refused as too large |
| `MuxDrain.OverflowsIff` | p2p/connection/connection.go:657-660 | in a connection that has not stopped and has no move left, a packet has been refused exactly if some channel was given a message beyond its capacity |
| `MuxDrain.ScanPackets` | p2p/connection/connection.go:360-374 | a scan never adds to the packets left of a channel, also when it loads an empty message or drops its candidate |
| `MuxFairness.FairnessTheorem` | p2p/connection/connection.go:357-395 | from any state and in any interleaving, the packets sent before a pending channel is served are at most the room the other channels have under its ratio, one for a scan already past it, and, for every update of the statistics, a quota fixed by its own account |
| `MuxFairness.WaitingBound` | p2p/connection/connection.go:357-395 | the same bound from the waiting channel alone: with U updates, U + 1 times the sum of r_c * p_j / p_c + 1 over the other channels, plus one |
| `MuxFairness.UpdateGrantsQuota` | p2p/connection/connection.go:676-680 | an update lowers the waiting channel's account too, so what it gives back to the others stays within that quota |
| `MuxFairness.WriteUsesRoom` | p2p/connection/connection.go:645-653 | a packet of a channel chosen ahead of c uses up room that the channel had under c's ratio |
| `MuxFairness.FreshChannelWaitsOneRound` | p2p/connection/connection.go:357-395 | a pending channel that has sent nothing recently waits for at most one packet of every other channel, once and once more per update, plus one |
| `MuxCode.BestIsLeast` | p2p/connection/connection.go:360-374 | the scan finds a channel exactly if one is pending; the one found has the least ratio of recentlySent to priority, the first among equals |
| `MuxCode.UninterruptedScan` | p2p/connection/connection.go:360-374 | the step-by-step scan of the concurrent model, run without interference, loads the same channels and finds the same candidate as the loop |
| `MuxCode.Channel.TrySendBytes` | p2p/connection/connection.go:592-600 | succeeds exactly if the queue has room, and then appends the message and counts it |
| `MuxCode.Channel.SendBytes` | p2p/connection/connection.go:579-588 | queues and counts the message unless the wait times out, which changes nothing |
| `MuxCode.Channel.IsSendPending` | p2p/connection/connection.go:616-624 | answers whether the channel had data and loads the next message if none was in progress |
| `MuxCode.Channel.NextMsgPacket` | p2p/connection/connection.go:628-642 | cuts the packet of the model and leaves the channel of the model |
| `MuxCode.Channel.UpdateStats` | p2p/connection/connection.go:676-680 | takes at least a fifth off the account and less than one more than that; a positive account always shrinks; queue and message in progress stay |
| `MuxCode.AccountFades` | p2p/connection/connection.go:676-680 | as many updates as bytes, with no further packet, clear any account |
| `MuxCode.Channel.RecvMsgPacket` | p2p/connection/connection.go:657-672 | refuses a packet exactly if the bytes already collected and its own exceed the capacity, and otherwise completes or extends the message with them; appends in place exactly when the buffer has room, changing only the bytes behind the old contents, and else leaves the old buffer as it was; a completed message is a slice of the reused buffer |
| `MuxCode.KeptMessageIntactIff` | p2p/connection/connection.go:657-672 | a completed message kept by the callback survives the next packet exactly if that packet is refused, or does not fit the buffer, or has the same bytes as far as both go |
| `MuxCode.KeptMessageOverwritten` | p2p/connection/connection.go:657-672 | such an overwrite: in a one-byte buffer the packet [2] turns the kept message [1] into [2] |
| `MuxCode.MConnection.constructor` | p2p/connection/connection.go:110-144 | fills in the default capacities and gives a valid connection, its channels new and with empty receive buffers, in the initial state of the step system |
| `MuxCode.DefaultsFilled` | p2p/connection/connection.go:535-545 | a capacity of zero becomes 1 message, 4096 bytes or 22020096 bytes; any other stays |
| `MuxCode.MConnection.UpdateAllStats` | p2p/connection/connection.go:295-298 | decays the account of every channel once |
| `MuxDrive.Drive` | p2p/connection/connection.go:110-377 | a new connection, started and driven by any sequence of sends, send-routine turns and statistics updates, goes turn by turn through a run of the step system from its initial state; at the end, while it runs with the token slot empty, no channel holds data |
| `MuxDrive.Take` | p2p/connection/connection.go:283-338 | one such call or turn is exactly its own steps: a send's three, or waking and a batch, or the decay, or none when it is refused |
| `MuxCode.MConnection.TrySend` | p2p/connection/connection.go:237-266 | succeeds exactly if the connection runs, the channel exists and has room; it then is the three steps enqueue, count and signal of the step system, and otherwise changes nothing |
| `MuxCode.MConnection.LeastChannel` | p2p/connection/connection.go:360-374 | the scan loop loads every channel and returns the least-ratio candidate |
| `MuxCode.MConnection.SendMsgPacket` | p2p/connection/connection.go:357-395 | is a run of the step system: a scan of all channels followed by a write, a failed write that stops the connection, or finding nothing |
| `MuxCode.MConnection.SendSome` | p2p/connection/connection.go:311-354 | is a run of the step system from the wake-up to waiting or stopping, with the packets and the token of that run; a full batch re-arms the token, an early end in a running connection means nothing is pending |
| `AddrBookRuns.RunKeepsInvariant` | p2p/pex/addrbook.go:81-284 | every run of additions, promotions, removals, attempts and own-address registrations keeps lookup, buckets, references and counters in agreement: known exactly if referenced, references distinct and equal to bucket membership, 1 to 4 new buckets or exactly one old one, counters exact, no bucket over 65 |
| `AddrBookRuns.StepOk` | p2p/pex/addrbook.go:81-284 | each single call keeps that invariant |
| `AddrBookRuns.StepByLookup` | p2p/pex/addrbook.go:81-284 | each call as a change of the known addresses alone, stated without buckets and counters, with the own addresses growing exactly by the registered one; the invariant makes the rest follow |
| `AddrBookRuns.RemovalOutcome` | p2p/pex/addrbook.go:195-203 | after a removal, of either kind of address or an unknown one, it is in no lookup and no bucket, and every other address is where it was |
| `AddrBookRuns.AdditionOutcome` | p2p/pex/addrbook.go:211-239 | an addition that is let in and not left alone puts the address, as a new one, into the given bucket with one more reference unless it was there; any other changes nothing |
| `AddrBookRuns.RegisteredStaysOut` | p2p/pex/addrbook.go:88-93 | after a call of AddOurAddress no later call brings that address into the book: if it was not known then it is in no later lookup, and if it was it stays out once it has left |
| `AddrBookRuns.OursNeverReturn` | p2p/pex/addrbook.go:88-93 | an own address that is not in the book never enters it again in any run |
| `AddrBookRuns.PromotionOutcome` | p2p/pex/addrbook.go:384-396 | promotion leaves an address in no new bucket and in exactly the given old bucket, or, when that is full, out of the book |
| `AddrBookRuns.RemoveUndoesAdd` | p2p/pex/addrbook.go:195-261 | removing an address just added without an eviction restores the book |
| `AddrBookRuns.SizeIsLookup` | p2p/pex/addrbook.go:436-438 | the sum of the two counters is the number of known addresses |
| `AddrBookRuns.SelectionRanges` | p2p/pex/addrbook.go:105-106 | all of up to 32 addresses, 32 up to 139, 23 percent up to 1086, and 250 from there on |
| `AddrBookRuns.KindHasBucket` | p2p/pex/addrbook.go:175-182 | a kind has addresses exactly if one of its buckets is not empty, so the search for a bucket has something to find |
| `AddrBookRuns.DrawArgumentPositive` | p2p/pex/addrbook.go:223-232 | the argument of the random draw for a known address is positive |
| `AddrBookModel.DropNewOk` | p2p/pex/addrbook.go:423-434 | dropping a new address from one of its buckets keeps the invariant, whether or not it was the last one, and empties one place |
| `AddrBookModel.DropOk` | p2p/pex/addrbook.go:423-434 | removeFromBucket keeps the invariant for both kinds and any bucket: without the reference nothing changes, and an old address leaves the book |
| `AddrBookModel.AddToNewOk` | p2p/pex/addrbook.go:241-261 | adding to a new bucket, with expiry when it is full, keeps the invariant and puts the address there |
| `AddrBookModel.RemoveAllOk` | p2p/pex/addrbook.go:409-421 | removing an address from all its buckets keeps the invariant |
| `AddrBookModel.MoveToOldOk` | p2p/pex/addrbook.go:384-396 | promotion keeps the invariant, also when the old bucket is full |
| `AddrBookModel.WithoutDistinct` | p2p/pex/know_address.go:79-91 | removing one reference from distinct references leaves distinct ones, one fewer exactly if it was there |
| `AddrBookCode.KnownAddress.AddBucketRef` | p2p/pex/know_address.go:30-38 | refuses a reference that is present, otherwise appends it and returns the count |
| `AddrBookCode.KnownAddress.RemoveBucketRef` | p2p/pex/know_address.go:79-91 | removes a reference that is there exactly once, otherwise changes nothing and returns -1 |
| `AddrBookCode.KnownAddress.BadWhen` | p2p/pex/know_address.go:40-57 | never an old address; an untried one exactly after thirty days; a tried one exactly within a minute of the try, after thirty days, or with three tries and no success ever, or ten and none in seven days |
| `AddrBookCode.KnownAddress.Restore` | p2p/pex/file.go:34-64 | a stored entry gets every one of its fields back |
| `AddrBookCode.AddrBook.ChooseVictim` | p2p/pex/addrbook.go:323-333 | throws out some bad address of the bucket, or if none is bad the one attempted longest ago |
| `AddrBookCode.AddrBook.PickOldest` | p2p/pex/addrbook.go:398-407 | finds an address of the bucket that was attempted no later than any other |
| `AddrBookCode.AddrBook.AddToNewBucket` | p2p/pex/addrbook.go:241-262 | refuses an old address without a change; otherwise keeps all four structures linked and acts as the model's addition with the victim it chose, for any number of references; the invariant holds afterwards if there were fewer than four; every known object was known before or is the one added |
| `AddrBookCode.AddrBook.ExpireNew` | p2p/pex/addrbook.go:323-333 | drops one address of the bucket, a bad one or if none is bad the one tried longest ago, and nothing else |
| `AddrBookCode.AddrBook.RemoveFromBucket` | p2p/pex/addrbook.go:423-434 | drops membership, the reference if it is there once, and the address with its last reference, for both kinds |
| `AddrBookCode.AddrBook.RemoveFromAllBuckets` | p2p/pex/addrbook.go:409-421 | takes the address out of every bucket it refers to, out of the lookup and out of its counter |
| `AddrBookCode.AddrBook.AddToOldBucket` | p2p/pex/addrbook.go:264-284 | returns an error, without a change, for a new address, one that is in a bucket, and a full bucket; otherwise makes the address an old one in exactly that bucket |
| `AddrBookCode.AddrBook.MoveToOldBucket` | p2p/pex/addrbook.go:384-396 | returns an error without a change for an old address and one in no bucket; otherwise acts as the model's promotion, with an error when the old bucket was full |
| `AddrBookCode.AddrBook.AddAddress` | p2p/pex/addrbook.go:211-239 | returns the error of the first check that fails and then changes nothing; otherwise acts as one addition step of the model: an old address, one in four buckets and one unlucky in the draw stay as they are; any other ends in the hashed bucket, where a full bucket has lost a bad address or the one tried longest ago, and an unknown one is recorded as untried; every known object was known before or is new |
| `AddrBookCode.AddrBook.RemoveAddress` | p2p/pex/addrbook.go:195-203 | acts as one removal step of the model; afterwards the address is in no lookup and no bucket, and every other address is where it was, the same object |
| `AddrBookCode.AddrBook.MarkGoodAddress` | p2p/pex/addrbook.go:120-135 | acts as one promotion step of the model; a known address has this time as its last attempt and success and no attempts, and no other object changes; no known object is added |
| `AddrBookCode.AddrBook.MarkAttemptOn` | p2p/pex/addrbook.go:138-145 | a known address has this time as its last attempt and one attempt more; no other object changes, and lookup, buckets, references and counters stay |
| `AddrBookCode.AddrBook.AddOurAddress` | p2p/pex/addrbook.go:88-93 | adds the address to the own addresses and changes nothing else |
| `AddrBookCode.PerformAll` | p2p/pex/addrbook.go:81-284 | any sequence of calls on one book, over its shared objects, is a run of the model with one matching step per call, refused additions included |
| `AddrBookCode.Perform` | p2p/pex/addrbook.go:81-284 | each call is its step of the model, and leaves only objects known before or new ones in the book |
| `AddrBookReads.GetSelection` | p2p/pex/addrbook.go:96-117 | returns distinct book addresses, min(250, max(min(32, size), size*23/100)) of them, for every sequence of draws |
| `AddrBookReads.Shuffle` | p2p/pex/addrbook.go:111-114 | the partial in-place shuffle is a permutation for every sequence of draws |
| `AddrBookReads.ChosenSideEmpty` | p2p/pex/addrbook.go:161-173 | the side that bias and draw choose is empty exactly if the bias is 100 and there are no new addresses |
| `AddrBookReads.PickAddress` | p2p/pex/addrbook.go:153-192 | returns nothing exactly if the book is empty, or the bias is at least 100 and there are no new addresses; otherwise, with fair draws, a book address of the chosen kind |
| `AddrBookReads.PicksNothing` | p2p/pex/addrbook.go:153-173 | such a book: after one addition and its promotion, a pick with bias 100 returns nothing |
| `AddrBookReads.DrawBucket` | p2p/pex/addrbook.go:175-182 | the loop of draws ends, at the first draw that hits a non-empty bucket, whenever some bucket is not empty and every number comes up |
| `AddrBookReads.Save` | p2p/pex/file.go:18-32 | the dump lists every known address once, with its stored fields |
| `AddrBookReads.LoadAllMirrors` | p2p/pex/file.go:34-64 | loading keeps buckets and counters in step with the lookup, which gains exactly the loaded entries |
| `AddrBookReads.LoadUndoesSave` | p2p/pex/file.go:18-64 | loading any dump of a book, in any order, into an empty book rebuilds its lookup, buckets and counters |
| `AddrBookReads.LoadAgreesIff` | p2p/pex/file.go:51-62 | loading any list of entries into an empty book gives buckets and counters that agree with the lookup exactly if no address is listed twice |
| `AddrBookReads.LoadOkIff` | p2p/pex/file.go:51-62 | loading any list of entries into an empty book gives a book with the invariant that later calls need exactly if no address repeats, every entry has the references its kind allows, and no bucket gets more than 65 |
| `AddrBookReads.Load` | p2p/pex/file.go:34-64 | the loading loops act as the model's loading; every loaded entry has all its stored fields; every known object was known before or is new |
| `AddrBookReads.SaveAndReload` | p2p/pex/file.go:18-64 | saving and loading on the heap gives a valid copy, with objects of its own, equal to the book except for its own addresses, which are not stored; source, attempts, times, kind and buckets of every address are kept |
| `BlockIndex.BlockIndex.SetMainChain` | protocol/state/blockindex.go:46-67 | after any earlier calls the main chain is exactly the path of ancestors from height 0 to the given node, although the loop stops at the first matching slot |
| `BlockIndex.SetInTurn` | protocol/state/blockindex.go:46-67 | any sequence of calls, growing, shrinking or branching, ends with the chain of the last node |
| `BlockIndex.EarlyStopRightIff` | protocol/state/blockindex.go:63-66 | over arbitrary slots the early-stopping walk writes the whole chain exactly if it never stops or the slots below the stopping place are that node's chain |
| `BlockIndex.StaleSlotStopsWrongly` | protocol/state/blockindex.go:55-61 | without the clearing of reused slots the walk stops over a wrong root; with it the result is right |
| `BlockIndex.ResizedChainWalks` | protocol/state/blockindex.go:50-66 | over the old chain cut or extended with empty slots the walk is right |
| `BlockIndex.WalkResult` | protocol/state/blockindex.go:63-66 | below the stopping place the slots are kept, from it up to the node they are the node's ancestors |
| `BlockIndex.BlockIndex.Resize` | protocol/state/blockindex.go:50-61 | the slice gets the needed length; slots beyond the old length are empty, also in reused capacity |
| `BlockIndex.BlockIndex.WriteChain` | protocol/state/blockindex.go:63-66 | the in-place loop writes what the walk over the old slots gives |
| `SecretNonces.IncrValue` | p2p/connection/secret_connection.go:339-346 | the carry chain adds one to the big-endian value, wrapping at 256 to the length |
| `SecretNonces.Incr2Value` | p2p/connection/secret_connection.go:333-337 | adds two modulo 2^192 |
| `SecretNonces.SameDirectionRepeats` | p2p/connection/secret_connection.go:333-346 | after i and after j frames a direction has the same nonce exactly if j - i is a multiple of 2^191 |
| `SecretNonces.NoRepeatWithinHalf` | p2p/connection/secret_connection.go:333-346 | fewer than 2^191 frames apart a direction never repeats a nonce |
| `SecretNonces.NoncesAgreeIff` | p2p/connection/secret_connection.go:227-251 | each side's send nonce is the other's receive nonce exactly if the ephemeral keys differ |
| `SecretNonces.NoncesOfSides` | p2p/connection/secret_connection.go:227-251 | the side with the smaller key, as a number, receives under the hash of smaller and larger key padded with zeros and sends under that plus one; the other side the other way round |
| `SecretNonces.LessIsValue` | p2p/connection/secret_connection.go:227-236 | comparing keys of one length compares their big-endian values |
| `SecretNonces.DirectionsNeverShare` | p2p/connection/secret_connection.go:238-251 | for all frame counts, wraparound included, the two directions use different nonces |
| `SecretNonces.IncrNonce` | p2p/connection/secret_connection.go:339-346 | the in-place loop is the increment of the whole array |
| `SecretNonces.Incr2Nonce` | p2p/connection/secret_connection.go:333-337 | the in-place double step is two increments |
| `SecretStream.FrameLayout` | p2p/connection/secret_connection.go:111-130 | a frame is 1026 bytes: the length in two, big end first, then the chunk, then zeros |
| `SecretStream.ChunksFull` | p2p/connection/secret_connection.go:111-121 | every chunk but the last has 1024 bytes |
| `SecretStream.ConcatChunks` | p2p/connection/secret_connection.go:111-121 | the payloads that Write cuts concatenate to the data |
| `SecretStream.HeadFrame` | p2p/connection/secret_connection.go:143-175 | the first sealed frame of the connection opens with the receiver's nonce to the first payload, and the rest is sealed from the next nonce on |
| `SecretStream.ReadKeepsStream` | p2p/connection/secret_connection.go:143-175 | a read of any size takes the next bytes of the stream, fails only when nothing is buffered or in transit, keeps the nonces matched, and reports the bytes it copied exactly if its buffer was empty before or it was given no room |
| `SecretStream.RefusedFrames` | p2p/connection/secret_connection.go:150-175 | a frame that does not open is an error and leaves the nonce; one that opens moves it on by two, and is an error exactly if its length field is over 1024 |
| `SecretStream.BufferedReadReportsZero` | p2p/connection/secret_connection.go:143-175 | the wrong count at an input: a frame of two bytes read one by one reports 1 and then, though a byte is copied, 0 |
| `SecretStream.SecretConnection.Write` | p2p/connection/secret_connection.go:110-140 | appends the sealed chunks in order under consecutive nonces; when the connection fails it reports the bytes of the chunks before, with the nonce already moved on |
| `SecretStream.SecretConnection.Read` | p2p/connection/secret_connection.go:143-175 | acts as one read step, including the returned count 0 of the buffered branch |
| `SecretStream.Link.constructor` | p2p/connection/secret_connection.go:49-101 | two fresh ends with different keys have matching nonces and balance |
| `SecretStream.Link.Write` | p2p/connection/secret_connection.go:110-140 | succeeds exactly if the connection takes all the chunks; adds the reported bytes and the sent chunks to the history and keeps: bytes copied, buffered and in transit are the bytes written, nonces differ by the frames in transit |
| `SecretStream.Link.Read` | p2p/connection/secret_connection.go:143-175 | fails exactly if nothing is buffered or in transit; keeps the same balance, and that the reported counts sum to the bytes copied exactly if no read with room met buffered bytes, as none does while every buffer holds at least 1024 bytes |
| `Codec.UvarintRoundTrip` | encoding/blockchain/blockchain.go:62-82 | every 64-bit value written in base 128 (unsigned LEB128, section 7.6 of DWARF 4) reads back and leaves what follows |
| `Codec.UvarintDigits` | encoding/blockchain/blockchain.go:139-159 | the written bytes are the base-128 digits, lowest first, with the high bit on all but the last and no leading zero |
| `Codec.UvarintBounded` | encoding/blockchain/blockchain.go:62-82 | an integer that is read fits 64 bits and took at most ten bytes |
| `Codec.FitsNineBytes` | encoding/blockchain/blockchain.go:150-159 | a value up to 2^63-1 never needs more than the nine bytes of the pooled buffer |
| `Codec.VarintRoundTrip` | encoding/blockchain/blockchain.go:62-159 | the 31- and 63-bit readers undo their writers, which accept exactly the values in range |
| `Codec.VarstrRoundTrip` | encoding/blockchain/blockchain.go:84-170 | a string is written exactly if its length fits 31 bits, and then reads back |
| `Codec.VarstrListRoundTrip` | encoding/blockchain/blockchain.go:102-187 | a list that can be written reads back item by item |
| `CodecCode.ExtensibleReadsBack` | encoding/blockchain/blockchain.go:125-203 | an extensible string is written exactly if its body is and the whole fits 31 bits; a reader that undoes the body then finds it and leaves the suffix |
| `CodecCode.Writer.Extensible` | encoding/blockchain/blockchain.go:189-203 | writes body and suffix as one string, or nothing when the body fails or the whole is too long |
| `Codec.ReadManyLocal` | encoding/blockchain/blockchain.go:102-123 | a successful repeated read has exactly the announced length and depends only on the bytes it consumed |
| `Codec.VarintLocal` | encoding/blockchain/blockchain.go:62-82 | an integer read depends only on the bytes it consumed |
| `Codec.VarstrLocal` | encoding/blockchain/blockchain.go:84-100 | a string read depends only on the bytes it consumed, at least one |
| `Codec.ExtensibleLocal` | encoding/blockchain/blockchain.go:125-137 | an extensible string depends only on the bytes it consumed, whatever its inner reader does |
| `CodecCode.Reader.Uvarint` | encoding/blockchain/blockchain.go:41-49 | the byte-wise reading loop agrees with the integer parser on value, error and unread bytes |
| `CodecCode.Reader.ReadExactly` | encoding/blockchain/blockchain.go:53-60 | reading a fixed number of bytes agrees with the parser |
| `CodecCode.Reader.Varint31` | encoding/blockchain/blockchain.go:62-71 | agrees with the 31-bit parser, range error included |
| `CodecCode.Reader.Varint63` | encoding/blockchain/blockchain.go:73-82 | agrees with the 63-bit parser, range error included |
| `CodecCode.Reader.Varstr31` | encoding/blockchain/blockchain.go:84-100 | agrees with the string parser, short input included |
| `CodecCode.Reader.VarstrList` | encoding/blockchain/blockchain.go:102-123 | the counted loop agrees with the list parser |
| `CodecCode.Writer.Varint31` | encoding/blockchain/blockchain.go:139-148 | writes the encoding, or nothing when the value is out of range |
| `CodecCode.Writer.Varint63` | encoding/blockchain/blockchain.go:150-159 | writes the encoding, or nothing when the value is out of range |
| `CodecCode.Writer.Varstr31` | encoding/blockchain/blockchain.go:161-170 | writes length and bytes, or nothing when the string is too long |
| `CodecCode.Writer.VarstrList` | encoding/blockchain/blockchain.go:172-187 | writes the whole list, or the count and the strings before the first one that is too long |
| `CodecCode.VarstrListWritten` | encoding/blockchain/blockchain.go:172-187 | what an uninterrupted list write leaves is the list's encoding |
| `Hash.HashRoundTrip` | protocol/bc/hash.go:18-36 | a hash survives the conversion to 32 bytes and back |
| `Hash.Byte32Value` | protocol/bc/hash.go:18-36 | the 32 bytes are the four words in order, each big end first |
| `Hash.BytesRoundTrip` | protocol/bc/hash.go:18-36 | 32 bytes survive the conversion to a hash and back |
| `Hash.AssetAmountRoundTrip` | protocol/bc/asset.go:64-82 | an asset amount that can be written reads back and leaves what follows |
| `TxParser.TxLocal` | protocol/bc/types/transaction.go:40-84 | a transaction that parses consumed a prefix; SerializedSize is its length; with any other bytes after that prefix the value is the same and those bytes stay unread |
| `TxParser.TxPrefixFree` | protocol/bc/types/transaction.go:40-84 | no complete serialised transaction is a proper prefix of another |
| `TxParser.InputLocal` | protocol/bc/types/txinput.go:36-120 | locality of inputs, through commitment and witness strings and the nested spend commitment |
| `TxParser.OutputLocal` | protocol/bc/types/txoutput.go:33-45 | locality of outputs, with the ignored output witness |
| `TxWriter.TxRoundTrip` | protocol/bc/types/transaction.go:40-84 | every field of every transaction that the reference encoder can encode comes back from its bytes, with their number as its size, whatever follows: flags, version, time range, counted inputs and outputs |
| `TxWriter.ParsesIffEncodable` | protocol/bc/types/transaction.go:40-84 | a transaction comes out of some bytes exactly if it can be encoded, so VM versions, ranges and asset versions are refused as they should be |
| `TxWriter.InputRoundTrip` | protocol/bc/types/txinput.go:36-120 | the same for an input: its three kinds, other asset versions, commitment and witness suffixes, the nested spend commitment and the computed asset id |
| `TxWriter.OutputRoundTrip` | protocol/bc/types/txoutput.go:33-45 | the same for an output, with any witness string in front of what follows |
| `TxWriter.TxFits` | protocol/bc/types/transaction.go:40-84 | a parsed transaction can be encoded in no more bytes than were consumed |
| `TxWriter.OthersRefused` | protocol/bc/types/txinput.go:42-117 | other serialisation flags, input types above 2 and an issuance whose parameters do not give the committed asset id are errors |
| `TxCode.TxFrom` | protocol/bc/types/transaction.go:40-84 | the imperative reader agrees with the parser; bytes that start with an encoded transaction give exactly that transaction and leave the rest; on success the result can be encoded and its size field is the length of the consumed prefix |
| `TxCode.InputFrom` | protocol/bc/types/txinput.go:36-120 | agrees with the input parser on value, error and unread bytes |
| `TxCode.CommitmentFrom` | protocol/bc/types/txinput.go:42-83 | agrees with the commitment parser for the three input types, an unknown type and asset versions other than 1 |
| `TxCode.WitnessFrom` | protocol/bc/types/txinput.go:88-117 | agrees with the witness parser, the asset id check included |
| `TxCode.SpendStringFrom` | protocol/bc/types/spend_commitment.go:19-44 | agrees with the spend commitment parser and returns the unread suffix |
| `TxCode.OutputBodyFrom` | protocol/bc/types/output_commitment.go:18-36 | agrees with the output commitment parser for every asset version |
| `TxCode.OutputFrom` | protocol/bc/types/txoutput.go:33-45 | agrees with the output parser |
| `TxCode.InputsFrom` | protocol/bc/types/transaction.go:57-68 | the counted loop over inputs agrees with the repeated parser |
| `TxCode.OutputsFrom` | protocol/bc/types/transaction.go:70-81 | the counted loop over outputs agrees with the repeated parser |
| `HashEncoding.RoundTrip` | protocol/bc/entry.go:31-115 | for every shape of byte, uint64, bytes, byte list, string, hash, list, struct and non-nil pointer, a decoder recovers the value from its encoding and leaves what follows |
| `HashEncoding.LittleEndianReverses` | protocol/bc/entry.go:31-115 | a uint64 is written as its big-endian bytes in reverse |
| `HashEncoding.UniquelyDecodable` | protocol/bc/entry.go:31-115 | two encodings of one shape followed by any bytes that agree as a whole come from the same value and have the same bytes after them: no proper prefixes, no collisions |
| `HashEncoding.UniquelyDecodableIff` | protocol/bc/entry.go:31-115 | with nil pointers allowed, the encodings of a type are uniquely decodable exactly if no pointer occurs in it, however deep in lists and structs |
| `HashEncoding.WriteForHash` | protocol/bc/entry.go:31-115 | the recursive writer writes the encoding, and before an error exactly what precedes it |
| `HashEncoding.WriteEach` | protocol/bc/entry.go:82-112 | the loops over elements and fields stop at the first error with what precedes it written |
| `AssetId.PreImageOf` | protocol/bc/asset.go:41-61 | the pre-image written out: VM version, program with its length, data hash |
| `AssetId.PreImageIff` | protocol/bc/asset.go:41-61 | two asset definitions have one pre-image exactly if they show the same: no program and the same data hash, or the same program and data hash, or programs over 2^31-1 bytes with the same VM version; a missing data hash counts as the zero hash |
| `AssetId.LongProgramsCollide` | protocol/bc/asset.go:41-48 | programs over 2^31-1 bytes are the exception: different ones have one pre-image, since the write error is ignored |
| `AssetId.AcceptedIssuancesAgree` | protocol/bc/types/issuance.go:38-50 | two issuances accepted for one committed asset id have the same program, VM version and definition, or exhibit two strings with one digest |
| `Merkle.SplitPoint` | protocol/bc/merkle.go:77-86 | for n >= 2 the split is a power of two k with k < n <= 2k, and the only one |
| `Merkle.AndTest` | protocol/bc/merkle.go:79-81 | n & (n-1) is zero exactly for powers of two |
| `Merkle.RootIsMTH` | protocol/bc/merkle.go:19-53 | the root, as bytes, is the Merkle Tree Hash of section 2.1 of RFC 6962, for every list and every hash function |
| `Merkle.RootBinds` | protocol/bc/merkle.go:10-53 | lists of any lengths with one root are equal, provided no two of the strings hashed for them collide |
| `Merkle.TxMerkleRoot` | protocol/bc/merkle.go:66-72 | the root of the ids is the Merkle Tree Hash of their 32-byte forms in order |
| `Merkle.TxStatusMerkleRoot` | protocol/bc/merkle.go:56-62 | the root of the statuses is the Merkle Tree Hash of their JSON texts in order |
| `Merkle.TxRootBinds` | protocol/bc/merkle.go:66-72 | one transaction root, one list of ids, under the same proviso |
| `Merkle.TxStatusRootBinds` | protocol/bc/tx_status.go:43-51 | one status root, one list of statuses, under the same proviso |
| `TxSync.ReachableWaits` | netsync/sync.go:138-160 | at every wait point of every run pending work implies an active send, and at most one send is in flight |
| `TxSync.StepKeepsWaitInv` | netsync/sync.go:138-160 | each event keeps that, and an arrival during a send leaves the pack in flight untouched |
| `TxSync.PackBounds` | netsync/sync.go:104-122 | a pack is a prefix of the list, non-empty if the list is; without its last transaction it is below the target size; it stops short of the end only at the target size |
| `TxSync.ListSentOnceInOrder` | netsync/sync.go:95-160 | from a list's arrival on, with no replacement and no failed send to that peer, the packs sent and what is pending make up the list: nothing twice, lost or out of order |
| `TxSync.FailureDropsPeer` | netsync/sync.go:145-155 | a failed send drops its peer and starts nothing for it; every other list stays, the one picked next less its pack |
| `TxSync.NothingAfterFailure` | netsync/sync.go:145-155 | after a failed send, until a new list arrives for that peer, nothing more is sent to it in any continuation and it is not pending |
| `TxSync.SendShrinks` | netsync/sync.go:113-117 | every send leaves strictly less to do |
| `TxSync.Drains` | netsync/sync.go:138-160 | once arrivals stop, at most Work + 1 further results are taken, and when nothing is in flight nothing is pending |
| `TxSync.TxSyncLoop.SendPack` | netsync/sync.go:104-122 | filling the pack, the shift in place and the removal act as the model's send; other peers' lists are untouched |
| `TxSync.SyncList.DropFirst` | netsync/sync.go:114-114 | copying the rest down over itself, front to back, leaves exactly the list without its first n |
| `TxSync.TxSyncLoop.Pick` | netsync/sync.go:125-136 | returns a pending sync whenever there is one, for every random number and map order |
| `TxSync.TxSyncLoop.OnArrive` | netsync/sync.go:140-144 | acts as the model's arrival and keeps the wait-point invariant; of objects only the new list joins |
| `TxSync.TxSyncLoop.OnDone` | netsync/sync.go:145-155 | acts as the model's completion and keeps the wait-point invariant; after a failed send its peer is not pending and the lists of others stay, but for the one picked next; no object joins |
| `TxSync.Serve` | netsync/sync.go:138-160 | the loop on the heap, given any sequence of arrivals and results, goes through the run of the model that answers them in turn |
| `Fetcher.ImportedOnceOnBest` | netsync/fetcher.go:81-140 | over every run queued hashes are distinct and in the map; the imports are those of the blocks whose turn allowed it; no hash is imported twice, even after a failed import, and every import had the block's parent as the reported best block |
| `Fetcher.EveryBlockAccounted` | netsync/fetcher.go:81-140 | over every run the blocks that were queued are, one for one, those still in the queue, those imported, in order, and those taken when due that were known or not on the best block |
| `Fetcher.TurnOutcome` | netsync/fetcher.go:85-105 | a turn imports the popped block exactly if it is at most at height + 1, unknown and its parent is the best block; it forgets it exactly if it is due and not imported; else it puts it back |
| `Fetcher.SignedIs` | netsync/fetcher.go:124-126 | the distance is the int64 congruent to the difference of the heights modulo 2^64 |
| `Fetcher.MapExact` | netsync/fetcher.go:81-140 | the map holds exactly the hashes that are in the queue or were imported, so a refused block can be queued again and an imported one cannot |
| `Fetcher.TakeKeeps` | netsync/fetcher.go:85-105 | pushing back, forgetting and importing all keep the queue and map invariants |
| `Fetcher.StopsRightIff` | netsync/fetcher.go:85-92 | in every run and for every admissible first item, stopping at an item that is too high leaves only blocks above the sampled height + 1, exactly if single precision separates height + 1 from height + 2 |
| `Fetcher.StopsEarly` | netsync/fetcher.go:85-92 | where it does not, announcing blocks of height + 2 and height + 1 at best height `height` lets the loop, at that same height, stop over the one that is due |
| `Fetcher.SeparatesSmallHeights` | netsync/fetcher.go:90-90 | that holds for all heights below 2^24 - 1 and fails at 2^24 - 1 |
| `Fetcher.FetcherLoop.EnqueueBlock` | netsync/fetcher.go:121-140 | queues a block exactly if it is within 1024 above the best height and its hash is not in the map |
| `Fetcher.FetcherLoop.ImportQueued` | netsync/fetcher.go:84-105 | the loop is a run of turns with the chain's answers in order, and its imports are those of the popped blocks whose answers allow it; at its end the queue holds only blocks above the next height, where single precision separates the heights |
| `Float32.Float32Monotone` | netsync/fetcher.go:90-90 | conversion of heights to single precision, ties to even, keeps the order |
| `Float32.FirstInexact` | netsync/fetcher.go:90-90 | 2^24 and 2^24 + 1 get one priority |
| `PeerSet.PeerSet.Add` | p2p/peer_set.go:40-53 | refuses a key that is present, otherwise appends; lookup and list stay in step, and no snapshot changes although the append may be in place |
| `PeerSet.PeerSet.Remove` | p2p/peer_set.go:76-105 | removes by moving the last peer into the gap of a copy; lookup and list stay in step, and no snapshot changes |
| `PeerSet.PeerSet.List` | p2p/peer_set.go:115-119 | returns the list's own slice, which from then on counts as a snapshot |
| `PeerSet.PeerSet.RemoveAll` | p2p/switch.go:179-194 | removing each peer of one snapshot empties the set and leaves the earlier snapshots alone |
| `PeerSet.UnlistInStep` | p2p/peer_set.go:96-103 | the index swap keeps lookup and list a bijection with correct indices and drops exactly one key |
| `PeerSet.SwapRemovesOne` | p2p/peer_set.go:87-102 | swap-removal takes out exactly the one peer |
| `PeerSet.CopyWithout` | p2p/peer_set.go:86-102 | the fresh copy is the swap-removed list |
| `Subsidy.NeverExceedsSupply` | consensus/general.go:65-70 | for every height the units issued stay within 210000000000000000 and within 63 bits, and never decrease |
| `Subsidy.ReachesLimitIff` | consensus/general.go:65-70 | the total equals its limit exactly from the last block of the 36th interval on |
| `Subsidy.LimitIs` | consensus/general.go:18-22 | the limit is the supply less 840000 for every one-bit of the base subsidy |
| `Subsidy.IssuedClosed` | consensus/general.go:65-70 | the total in closed form, interval by interval |
| `Subsidy.HalvingsSum` | consensus/general.go:65-70 | repeated halving with truncation sums to twice the number less its one-bits |

## Left out

- Cryptography (secretbox, SHA3, RIPEMD-160, Ed25519), the handshake and signature checks: foreign code, abstract here.
- go-wire, protobuf and JSON encodings: packets, saved addresses and statuses are values; only the status text is spelled out.
- protocol/block.go, protocol/protocol.go, orphan and transaction pools, database: they rest on functions the repository does not contain.
- Block and header serialisation, entry construction and transaction writers: only readers are present in full; TxWriter is a reference for them, not a model of code.
- Reactors, dialling, listeners, UPnP, ping and pong, timers, flow limits, logging and configuration: input and output plumbing.
- p2p/trust/banscore.go and common/: little remains after abstraction, or only easy members.
- MuxModel: the ratio of recentlySent to priority is compared exactly, where the code rounds to float32; the decay by 0.8 is the exact product rounded down.
- MuxDrive.Drive: one goroutine at a time; free interleavings are the step system's.
- MuxCode.MConnection.constructor: channel identifiers are positions in the list, so repeated ones do not arise.
- AddrBookCode: times are whole seconds, bucket hashes are parameters, and the book's random key is not modelled.
- AddrBookReads.Load: the objects of a file that repeats an address are not covered (LoadAgreesIff and LoadOkIff cover its values), nor are bucket numbers out of range, on which the code panics.
- AddrBookReads.PickAddress: square roots are exact reals, where the code rounds to float64; that the random draws are fair is a premise.
- BlockIndex.BlockIndex.SetMainChain: the wrap-around of height + 1 at 2^64 is not modelled.
- SecretStream.Link.Write: one direction of a connection; a Link takes no more writes after a failed one.
- TxCode.TxFrom: the fields a failing readFrom has already set are not modelled, because its callers drop the object.
- Merkle.SplitPoint: the logarithm is the exact integer part; rounding of float64 logarithms beyond 2^31 leaves is not modelled.
- TxSync: transactions are sizes with identities, and sizes are summed exactly, which float64 does below the pack size.
- Fetcher: banning and broadcasting after an import, and the per-peer counts that nothing updates.
- PeerSet: Has, Get and Size, which read one field; concurrent callers are serialised by the mutex.
