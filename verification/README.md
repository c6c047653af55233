# NullEye core logic

Dafny models of the logic at the heart of NullEye, a host intrusion detection agent written in C, with proofs about
all inputs, all runs and all interleavings. `dafny verify dfyconfig.toml` checks the project.

- **Event bus** (`Words`, `Events`, `EventBus`, `BusProtocol`, `BusSafety`, `BusDelivery`, `BusReads`, `BusRuns`,
  `BusStale`, `BusAtomic`, with `Counting` and `Arithmetic`). `EventBus` is the ring as a class over an array, one
  call at a time; `BusProtocol` is the same code as a step machine with any number of producer and consumer threads,
  one step for each atomic access of a counter and one for each copy of a slot, and with 64-bit unsigned arithmetic.
  `BusAtomic` joins the two.
- **Merkle root of a file** (`MerkleSpec`, `MerkleBinding`, `MerkleRoots`, `Memory`, `MerkleCompute`). SHA-256
  (section 6.2 of FIPS 180-4) is an arbitrary function from byte strings to 32-byte digests. A collision exists for
  any such function, so binding is stated with a collision that is computed from what the two runs hashed. `Memory` is
  a heap that grants a given number of requests, and on which freeing or reading a dead buffer is a precondition
  violation.
- **Rules engine** (`CText`, `Decimal`, `RuleParser`, `RuleCondition`, `RuleEngine`): line reading, parsing, the
  growing table, the condition operators and the evaluation loop.
- **LSTM predictor** (`Lstm`): flat weight arrays with strided indices, updated in place, floats as reals, and the two
  activations as arbitrary functions.
- **Isolation forest and its store** (`IsolationForest`, `ModelStore`): scoring with truncating division, and the
  binary codec behind saving and loading.

## Where the code does not do what is expected of it

- `ARCHITECTURE.md:8` calls the bus multi-producer, multi-consumer. `BusRuns.ExactlyOnceNeedsOneConsumer`: each event
  is granted at most once in all interleavings if and only if there is at most one consumer; the agent starts several.
  With two, an event can be lost for good (`BusRuns.TwoConsumersGrantTwice`).
- The ring can hold more reservations than its capacity: `BusSafety.OccupancyBound` gives the exact excess. A publish
  checks a head that may be stale: with two producers it can overwrite an unread event (`BusStale.OldestOverwritten`),
  and with one consumer it can be refused by an empty ring (`BusStale.EmptyRingRefuses`,
  `BusStale.RefusalIsRealIffOneSided`).
- A slot is reserved before it is filled. `BusRuns.NeverMisreadsIffOneSided`: already one producer and one consumer
  have an interleaving in which the consumer receives something else than the event it was granted.
  `BusReads.ReadIsLastStore` says what it receives, and when that is its event.
- After 2^64 events the comparison in consume is wrong exactly while head has wrapped and tail has not
  (`EventBus.ConsumeAtWrap`). A bus used by one call at a time never leaves that state (`EventBus.StuckAfterWrap`), so
  `EventBus.RingRefinesQueue` holds exactly up to it. The theorems about interleavings assume `NoWrap`: reservations +
  capacity + consumers below 2^64.
- Different files can have the same Merkle root without any collision, for instance `MerkleBinding.RepeatedLastBlock`
  and `MerkleRoots.NodeIsAFile`. `MerkleRoots.SameRootExactly` says exactly which; files of equal block count cannot
  (`MerkleBinding.RootBindsFile`).
- A refused allocation while blocks are being read leaks the digests stored so far, one during the reduction does not:
  `MerkleCompute.LeaksExactlyWhileReading`.
- `docs/RULES.md:22` describes contains() as a test for a literal substring. When it does not match, evaluation goes
  on and finds operators inside the quoted text. `RuleCondition.ContainsMeansContainment` says for which texts the
  description holds.
- `docs/RULES.md:23` says comm== looks at the command name; it looks at the whole payload, and for a quoted name also
  for the closing quote (`RuleCondition.CommFires`, `RuleCondition.CommQuotedFires`).
- A rule line whose separator starts at the blank after "if" is stored with a condition that runs to the end of the
  line (`RuleParser.AcceptsExactly`).
- The loader restarts its idea of the capacity at 0 in each call. A call that accepts a line is memory-safe exactly
  while fewer than 8 rules are loaded, because the first growth reallocates to 8 entries and then writes entry number
  count (`RuleEngine.WritesInBounds`); `RuleEngine.RuleTable.Load` demands just that its writes are in bounds.
- The number of biases, four times the hidden size, is indexed with int: models with more than 2^31 biases are
  accepted by the initialisation and are not fit for predictions (`Lstm.Model.Init`).
- All four LSTM gates see the same value, biases have no effect, and three quarters of the weights are never read.

## Model

| member | source | states |
|---|---|---|
| EventBus.Bus.Init | src/core/event_bus.c:13-22 | Capacity 0 is refused and changes nothing; otherwise the ring is all zero events with both counters 0, and when calloc fails the bus is left without a ring. |
| EventBus.Bus.Shutdown | src/core/event_bus.c:24-29 | The ring goes; the counters keep their values. |
| EventBus.Bus.Publish | src/core/event_bus.c:31-41 | The exact new ring and return code of an uninterrupted publish, through load, check, reservation and copy; refused without a ring or an event. |
| EventBus.Bus.Consume | src/core/event_bus.c:43-55 | The exact new ring, result code and event of an uninterrupted consume; the add and the subtract of an empty consume cancel. |
| EventBus.Bus.Pending | src/core/event_bus.c:57-62 | The unsigned difference of the counters, which is the queue length whenever the ring represents a queue. |
| EventBus.DecInc | src/core/event_bus.c:46-50 | Taking back a claim restores the counter, also when the claim wrapped it. |
| EventBus.PublishRefines | src/core/event_bus.c:34-40 | On a ring that represents queue q, publish fails exactly when q is full and otherwise appends, disturbing no queued event (indices in a window of one capacity use distinct slots). |
| EventBus.ConsumeRefines | src/core/event_bus.c:46-54 | On such a ring consume returns the oldest event and leaves the rest, and returns nothing, unchanged, exactly on the empty queue. |
| EventBus.RingRefinesQueue | src/core/event_bus.c:31-55 | For every capacity, ring that represents a queue and sequence of calls, the ring gives exactly the replies of a bounded FIFO queue if and only if head does not wrap before the last consume. |
| EventBus.FreshRingIsQueue | src/core/event_bus.c:13-55 | From a freshly initialised bus that is: if and only if fewer than 2^64 publishes are accepted before the last consume. |
| EventBus.ConsumeAtWrap | src/core/event_bus.c:46-51 | For counters past the wrap: consume answers as the queue would if and only if the queue is empty or tail is below head as machine words. |
| EventBus.ConsumeMissesAcrossWrap | src/core/event_bus.c:31-55 | From initialisation, 2^64 - 1 rounds of publish and consume and one more publish lead every bus to a state with one event pending across the wrap, which consume does not return. |
| EventBus.StuckAfterWrap | src/core/event_bus.c:31-55 | Whenever head has wrapped and tail has not, the bus is stuck: whatever calls follow, no consume ever returns an event again. |
| BusAtomic.AtomicPublish | src/core/event_bus.c:31-41 | The steps of one publish of producer p, run without interleaving, have exactly the effect of the one-step publish of the sequential bus: all four of them when it is accepted, the first two when it is refused. |
| BusAtomic.AtomicConsume | src/core/event_bus.c:43-55 | Claim and test of consumer c, followed by its copy or its rollback, run without interleaving, have exactly the effect of the one-step consume. |
| BusAtomic.RestingRingIsQueue | src/core/event_bus.c:31-62 | With one producer and any consumers all at rest, whatever the interleaving before, the ring is again the sequential queue of the reservations from tail on, if and only if the pending count is at most the capacity. |
| BusSafety.CountersStep | src/core/event_bus.c:34-53 | Every step keeps: head counts the reservations, tail the grants plus the unsettled claims, and grants split into delivered and in-copy. |
| BusSafety.ClaimsStep | src/core/event_bus.c:46-51 | Every step keeps: for each k at or above head, grants plus untested claims below k do not exceed k. |
| BusSafety.GrantsNeverExceedReservations | src/core/event_bus.c:31-55 | For any numbers of producers and consumers and any interleaving, deliveries never exceed grants, nor grants reservations; tail runs ahead of the deliveries by at most one per consumer. |
| BusSafety.QuiescentPending | src/core/event_bus.c:57-62 | With no call in flight tail <= head, and the pending count is accepted minus delivered events, without underflow. |
| BusSafety.CheckedStep | src/core/event_bus.c:34-36 | Every step keeps: a producer that found room holds a head below deliveries + consumers + capacity, in spite of stale loads and the unsigned subtraction. |
| BusStale.CheckIsStale | src/core/event_bus.c:34-36 | Under any interleaving a producer that loaded head h is refused exactly when tail has passed h or h is a capacity or more ahead of tail, whatever head is by then, and otherwise goes on with h. |
| BusStale.FullRingFindsRoom | src/core/event_bus.c:34-36 | For every capacity and two producers, an interleaving in which a publish finds room in a full ring of which nothing has been claimed. |
| BusStale.OldestOverwritten | src/core/event_bus.c:34-39 | It then overwrites the oldest event before anybody has claimed it. |
| BusStale.RoomIsRealNeedsOneProducer | src/core/event_bus.c:34-36 | In all interleavings a publish finds room only while head is less than a capacity ahead of tail if and only if there is at most one producer. |
| BusStale.EmptyRingRefuses | src/core/event_bus.c:34-36 | For every capacity, two producers and a consumer, an interleaving in which a publish is refused although head and tail are equal and no other call is in flight, because the unsigned difference to the loaded head wraps. |
| BusStale.RefusalIsRealIffOneSided | src/core/event_bus.c:34-36 | In all interleavings a publish is refused only while a capacity of events is undelivered if and only if there are no producers or no consumers. |
| BusStale.TestIsCurrent | src/core/event_bus.c:46-51 | A consumer that claimed t passes its test exactly when t is reserved at that moment. |
| BusSafety.OvershootStep | src/core/event_bus.c:34-37 | Every step keeps: each reservation beyond that reach was paid for by a producer that had loaded an older head. |
| BusSafety.OccupancyBound | src/core/event_bus.c:34-37 | Under any interleaving of N >= 1 producers and M consumers, reservations minus deliveries never exceed capacity + N - 1 + M. |
| BusRuns.OccupancyBoundReached | src/core/event_bus.c:34-37 | For every capacity, N and M some interleaving reaches that bound exactly, so the bound is the best one. |
| BusDelivery.DeliveredEventsAreGenuine | src/core/event_bus.c:37-53 | Under any interleaving, every slot and everything a consumer receives under claim t is the zero event or an event published under an index congruent to the slot, or to t. |
| BusDelivery.SingleConsumerInOrder | src/core/event_bus.c:46-52 | With one consumer and any number of producers the k-th successful claim is index k. |
| BusDelivery.ClaimsBeforeFirstRollback | src/core/event_bus.c:46-49 | With any number of consumers the claims made before the first rollback are 0, 1, 2, ... in order. |
| BusRuns.TwoConsumersGrantTwice | src/core/event_bus.c:46-51 | For every capacity and at least one producer and two consumers, an interleaving that grants index 1 twice, and whose continuations without wrap never grant index 0. |
| BusRuns.PassedIsFinal | src/core/event_bus.c:46-51 | An index below the number of grants that no consumer is about to test is not granted by any continuation without wrap. |
| BusRuns.ExactlyOnceNeedsOneConsumer | src/core/event_bus.c:43-55 | All interleavings grant each index at most once if and only if there is at most one consumer. |
| BusReads.LastStoreIs | src/core/event_bus.c:38-39 | The last store to the slot of t is store t if and only if t was stored and no index congruent to it was stored afterwards. |
| BusReads.LastIndexIs | src/core/event_bus.c:38 | For stores made in order of their indices this holds exactly while fewer than a capacity of stores have followed. |
| BusReads.SlotsExactStep | src/core/event_bus.c:37-39 | With any number of producers every step keeps: each slot holds exactly the event of the last store to it, or zero. |
| BusReads.ReadIsLastStore | src/core/event_bus.c:37-53 | Under any interleaving of any numbers of producers and consumers, a consumer granted t receives the event of the last store to the slot of t; that is store t exactly when t has been stored and no congruent index since. |
| BusReads.SingleProducerRead | src/core/event_bus.c:37-53 | With one producer that is exactly when t has been copied and t + capacity has not. |
| BusRuns.NeverMisreadsIffOneSided | src/core/event_bus.c:31-55 | In all interleavings every consumer receives the event published under the index it was granted if and only if there are no producers or no consumers. |
| BusRuns.FetchBeforeStore | src/core/event_bus.c:37-53 | The interleaving that shows it: a consumer fetches a reserved slot before the copy into it, and receives the zero event. |
| MerkleCompute.ReadLeaves | src/modules/file_integrity.c:30-39 | With g requests granted before the first refusal, the read loop stores the digests of the first min(n, g / 2) of n 4096-byte blocks in order in a growing array, and fails exactly when g < 2n, leaving what it stored. |
| MerkleCompute.StoreLeaf | src/modules/file_integrity.c:33-38 | One more digest in the reallocated array for two granted requests, or, when either is refused, the heap exactly as before. |
| MerkleCompute.HashPair | src/modules/file_integrity.c:54-60 | What is hashed is pair i of the level, the last digest with itself if it has no partner; only live buffers are read. |
| MerkleCompute.RoundStep | src/modules/file_integrity.c:53-64 | The parent digest goes into the next level; exactly when its request is refused, all digests and both arrays are freed once each, and the heap is what it was before the computation. |
| MerkleCompute.ReduceRound | src/modules/file_integrity.c:49-70 | One round replaces a level by the next one and frees the old one, or, exactly when one of its requests is refused, frees everything. |
| MerkleCompute.ReduceAll | src/modules/file_integrity.c:49-75 | The loop computes the recursive reduction in exactly Depth(n) rounds, hashing exactly its node inputs, and leaves the heap as it was before the file was read, on success and on failure; it fails exactly when one of its requests is refused. |
| MerkleCompute.PrintHex | src/modules/file_integrity.c:72-73 | 64 hexadecimal digits and a NUL, and nothing else of the output is touched. |
| MerkleCompute.ComputeMerkleRoot | src/modules/file_integrity.c:21-77 | 0 with the printed root exactly when there is a file and an output and the g granted requests cover two for each of n leaves and those of the reduction; otherwise -1 with the output untouched. When g < 2n the first g / 2 leaf digests and their array are left behind, else nothing. |
| MerkleCompute.LeaksExactlyWhileReading | src/modules/file_integrity.c:30-39 | Memory is left behind if and only if 2 <= g < 2n, and then g / 2 digests. |
| MerkleSpec.DepthIsCeilLog2 | src/modules/file_integrity.c:49-50 | The number of rounds is the ceiling of log2 of the number of leaves. |
| MerkleSpec.NodeHashes | src/modules/file_integrity.c:49-60 | n leaves cost at least n - 1 and at most n - 1 + ceil(log2 n) internal hashes. |
| MerkleSpec.NodeRequestsAre | src/modules/file_integrity.c:51-61 | The reduction makes one allocation request for every internal hash and one for every round. |
| MerkleSpec.ReduceIsPerfectTree | src/modules/file_integrity.c:49-70 | The duplicate-last reduction equals the top-down root of the perfect binary tree over the padded list of 2^depth leaves. |
| MerkleSpec.BlocksAre | src/modules/file_integrity.c:26-30 | There are ceil(size / 4096) blocks, and block k is bytes 4096 k up to 4096 (k + 1) or the end. |
| MerkleRoots.OneBlock | src/modules/file_integrity.c:30-48 | The root of a file of up to 4096 bytes, the empty one included, is its SHA-256. |
| MerkleSpec.HexReads | src/modules/file_integrity.c:72 | A text is the printed form of some bytes if and only if each of its pairs of lower-case hexadecimal digits, the high one first, reads as the byte. |
| MerkleSpec.HexInjective | src/modules/file_integrity.c:72 | Equal hexadecimal texts come from equal digests. |
| MerkleBinding.ReduceCollision | src/modules/file_integrity.c:49-70 | From two different leaf lists of one length with one root, two distinct inputs with one hash are computed, each really hashed in its own run. |
| MerkleBinding.BlocksInjective | src/modules/file_integrity.c:30 | Files with the same blocks are the same. |
| MerkleBinding.FileCollision | src/modules/file_integrity.c:30-70 | The same for two different files of equal block count and equal root, through leaf hashes and levels. |
| MerkleBinding.RootBindsFile | src/modules/file_integrity.c:30-73 | Two files of equal block count and equal printed root are identical, or the two runs hashed a SHA-256 collision. |
| MerkleBinding.TreeCollision | src/modules/file_integrity.c:49-70 | From two different perfect trees of one depth and one root, two distinct inputs with one hash are computed, each hashed in its own tree. |
| MerkleBinding.TreeInputsAreNodeInputs | src/modules/file_integrity.c:49-60 | A perfect tree hashes from the top exactly what the level loop hashes from the bottom. |
| MerkleBinding.PaddedNodeInputs | src/modules/file_integrity.c:57-60 | Padding a list to a perfect one changes nothing in what the reduction hashes. |
| MerkleBinding.EqualDepthBinding | src/modules/file_integrity.c:49-70 | At equal depth, equal padded lists give equal roots, and equal roots give equal padded lists or a collision between something the one reduction hashed and something the other did. |
| MerkleBinding.EqualPaddingIsPrefix | src/modules/file_integrity.c:57 | Leaf lists with one padding: the shorter is a prefix, and the rest of the longer repeats earlier digests. |
| MerkleBinding.RepeatedLastLeaf | src/modules/file_integrity.c:57 | Appending a copy of the last digest to an odd number, at least 3, keeps the root. |
| MerkleBinding.RepeatedLastBlock | src/modules/file_integrity.c:57 | So a longer file has the same root when an odd number, at least 3, of whole blocks is followed by a copy of the last. |
| MerkleRoots.NodeIsAFile | src/modules/file_integrity.c:58-60 | The 64 bytes hashed at the root of any file of two or more blocks are themselves a file with that root: different block counts do not bind. |
| MerkleRoots.FirstLeafIsANode | src/modules/file_integrity.c:49-70 | From two trees of different depths with one root and no collision, a 64-byte input of the deeper one whose hash is the first leaf of the shallower one. |
| MerkleRoots.SameRootExactly | src/modules/file_integrity.c:30-73 | For all files, empty ones included, whose two runs contain no collision: they print the same root if and only if they are both empty, or have equal depths and equal padded block lists, or have different depths and the shallower one is the 64-byte root input of the other. |
| MerkleRoots.SameToRootSuffices | src/modules/file_integrity.c:30-73 | Such files have the same root whatever the hash. |
| CText.IndexOfFirst | src/core/rules.c:27 | strstr and memmem, as used here, return the first occurrence, and nothing only when there is none. |
| CText.StrncpyReadsBack | src/core/rules.c:39-40 | A strncpy of n characters into n + 1 bytes of unknown content reads back whole for every such content if and only if the text is shorter than n. |
| CText.ChunksAre | src/core/rules.c:18-20 | The successive buffers are the file, cut at each newline and after each 511 characters without one. |
| CText.LineTextEnds | src/core/rules.c:21 | What is left of a buffer is its longest beginning without newline or NUL. |
| CText.ChunksLine | src/core/rules.c:20 | A line of up to 511 characters is read by one fgets, followed by its newline alone when there are exactly 511. |
| RuleParser.FirstSeparator | src/core/rules.c:27 | In a printed rule the first separator is the printed one if and only if the blank-padded condition does not contain the separator. |
| RuleParser.AcceptsExactly | src/core/rules.c:22-32 | For all texts: behind any blanks, a text is accepted as rule r if and only if it is "if ", condition, " then ", action, both not empty and no earlier separator, or it starts with "if then ", when the condition is everything from "then " on. |
| RuleParser.OthersAreSkipped | src/core/rules.c:20-32 | A line in front of a file leaves its accepted rules unchanged if and only if it is no such rule. |
| RuleParser.AcceptedLine | src/core/rules.c:20-41 | A line of up to 511 characters in front of a file adds its rule, if it has one, and nothing else. |
| RuleParser.RuleRoundTrip | src/core/rules.c:21-32 | A printed rule behind any blanks is parsed into exactly its condition and action if and only if the condition, with a blank on each side, does not contain " then ". |
| RuleParser.FileRoundTrip | src/core/rules.c:20-41 | A file of printed rules whose lines fit the buffer is accepted as exactly those rules, in order, if and only if no blank-padded condition contains the separator. |
| RuleParser.AcceptedFits | src/core/rules.c:21-32 | Accepted fields are non-empty and free of NUL and newline. |
| RuleEngine.WrittenReads | src/core/rules.c:39-40 | Fields short enough for their buffers are read back from the table as they were written. |
| RuleEngine.UnterminatedRunsOn | src/core/rules.c:9 | A condition field without a NUL runs on into its action, and an action field into the next rule. |
| RuleEngine.RuleTable.Grow | src/core/rules.c:34-37 | A granted realloc keeps every loaded rule, whatever the rest of the new memory holds; a refused one changes nothing. |
| RuleEngine.RuleTable.Add | src/core/rules.c:33-41 | The next accepted rule is written behind the others, through a doubling if need be; this fails, and changes nothing, exactly when a growth is needed and refused. |
| RuleEngine.WritesInBounds | src/core/rules.c:19-41 | All entry writes of a call are in bounds if and only if no line is accepted, no reallocation is granted, or fewer than 8 rules are loaded before it. |
| RuleEngine.WriteCount | src/core/rules.c:33-41 | With g reallocations granted, the capacity decides how many lines a call stores, and so whether it stores all. |
| RuleEngine.CapacityIs | src/core/rules.c:34 | After g reallocations, g > 0, the capacity is 4 * 2^g. |
| RuleEngine.RuleTable.Load | src/core/rules.c:13-46 | For every file, the table is what it was followed by as many of the accepted lines, in file order, as the granted reallocations make room for; the result is 0 exactly when there is a file and room for all of them. |
| RuleEngine.AlertLog.Perform | src/core/response_engine.c:18-30 | The action's message is recorded exactly when it fits the buffer and the database takes it. |
| RuleEngine.RuleTable.EvaluateAndAct | src/core/rules.c:98-110 | The result counts the matching rules, and the log gains exactly the messages of their actions that fit the message buffer, in table order. A field without a NUL is read on into what follows it. |
| RuleEngine.ShortMessages | src/core/response_engine.c:18-30 | Actions that fit their field are all recorded. |
| RuleEngine.MessageTells | src/core/response_engine.c:22-23 | A record names the action, then the target auto and the reason, and different actions have different records. |
| RuleEngine.LoadThenEvaluate | src/core/rules.c:13-110 | For any file whose accepted fields fit, loading it and evaluating an event performs exactly the actions of the matching accepted lines in file order and returns their number; all lines take part exactly when no growth is refused, otherwise those before it. |
| RuleEngine.LoadPrintedThenEvaluate | src/core/rules.c:13-110 | In particular for rules printed to a file. |
| Decimal.AtoiPrint | src/core/rules.c:73 | atoi inverts decimal printing for every 32-bit int, whatever non-digit follows. |
| Decimal.AtoiReads | src/core/rules.c:73 | atoi skips blanks, takes one sign and reads all the decimal digits; what does not fit 32 bits is truncated, and what does not fit 64 gives -1 or 0. |
| Decimal.AtoiStops | src/core/rules.c:73 | atoi does not look past a character that is neither blank, sign nor digit. |
| RuleCondition.AnomalyFires | src/core/rules.c:71-80 | "anomaly_score>T" fires on a payload whose first "score=" is followed by S if and only if S > T, for all 32-bit S and T. |
| RuleCondition.QuotedTextExactly | src/core/rules.c:53-61 | For every condition: the text searched for is the one between the first two single quotes behind the first "contains(", or the first two double ones when no single one follows. |
| RuleCondition.ContainsFires | src/core/rules.c:53-93 | contains() with either kind of quotes, for every text free of them, fires if and only if the first len bytes of the payload contain the text or an operator found inside the text fires. |
| RuleCondition.QuotedAfter | src/core/rules.c:71-86 | An operator is found in a quoted condition exactly when it is in the text, whatever the text. |
| RuleCondition.Misfires | src/core/rules.c:71-93 | Every text in which an operator can fire has a payload that shows it: it fires without containing the text. |
| RuleCondition.ContainsMeansContainment | src/core/rules.c:48-96 | For every text, contains() agrees with containment on all payloads if and only if the text is not empty, does not contain its quotes, and no operator inside it can fire: none is in it, or its threshold is INT_MAX and it has no comm== or one whose name itself contains "score=". |
| RuleCondition.ContainsFallsThrough | src/core/rules.c:53-93 | A concrete contains() that fires although the payload does not contain its text. |
| RuleCondition.CommFires | src/core/rules.c:48-93 | For every name and payload, "comm==name" fires if and only if the name, without a quote at its start, occurs anywhere in the payload string, unless a contains() text found in the name occurs, or an anomaly_score> in the name meets a score and decides. |
| RuleCondition.CommQuotedFires | src/core/rules.c:48-93 | Under the same proviso a quoted name is looked for together with its closing quote. |
| RuleCondition.CommMeansName | src/core/rules.c:48-96 | For every name, "comm==name" agrees with "the payload contains name" on all payloads if and only if the name does not start with a quote and contains no other operator. |
| Lstm.NonInterference | src/ai/lstm_predictor.c:43-67 | Nets that agree at every flat weight index with (index mod 4*hidden) < hidden reach the same state on every input sequence. |
| Lstm.PredictAlike | src/ai/lstm_predictor.c:36-70 | Two models with weights like that, whatever their biases, predict the same outputs on every input sequence. |
| Lstm.Recurrence | src/ai/lstm_predictor.c:40-64 | The network starts at zero; in each step unit i has one gate argument z, the sum of inputs times weights, new hidden values of earlier units times weights and old hidden values of itself and later units times weights; its new cell is sigmoid(z) * cell + sigmoid(z) * tanh(z) and its hidden value sigmoid(z) * tanh(new cell). |
| Lstm.RunBounded | src/ai/lstm_predictor.c:43-65 | After t steps every hidden value lies strictly within (-1, 1) and every cell value within [-t, t]. |
| Lstm.ColumnsInBounds | src/ai/lstm_predictor.c:17-53 | Every flat index computed for a hidden unit lies within the allocated weights. |
| Lstm.InitialWeight | src/ai/lstm_predictor.c:22 | Initial weights lie in [0, 0.1). |
| Lstm.InitialWeightPeriod | src/ai/lstm_predictor.c:22 | Two initial weights are equal if and only if their indices are equal modulo 97. |
| Lstm.Gate | src/ai/lstm_predictor.c:46-57 | A gate sees only the drive: its bias is multiplied by zero. |
| Lstm.Model.Init | src/ai/lstm_predictor.c:12-25 | Sizes, weights and biases of a new model; it is fit for predictions if and only if the 64-bit weight count did not wrap and the bias indices fit an int. |
| Lstm.Model.Accumulate | src/ai/lstm_predictor.c:50-53 | The strided inner loop computes the dot product of its column, all reads in bounds. |
| Lstm.Model.UpdateUnitInPlace | src/ai/lstm_predictor.c:46-63 | The four gates and the in-place update of one cell and one hidden value. |
| Lstm.Model.StepInPlace | src/ai/lstm_predictor.c:44-64 | The loop over units in place, where later units see earlier ones already updated. |
| Lstm.Model.Predict | src/ai/lstm_predictor.c:36-70 | The first min(outlen, hidden) outputs are the hidden vector after all time steps, the rest and every other array unchanged; -1 exactly on a missing argument or a failed allocation. |
| IsolationForest.Total | src/ai/isolation_forest.c:28-34 | The accumulated votes lie between one and five per tree. |
| IsolationForest.ScoreCounts | src/ai/isolation_forest.c:28-39 | With n trees of which k see a value at or below their threshold, a missing feature counting as 0, the score is 100 - ((n + 4k) / n) * 10 / depth. |
| IsolationForest.ScoreMonotone | src/ai/isolation_forest.c:28-39 | Raising any features never lowers the score. |
| IsolationForest.ScorePermuted | src/ai/isolation_forest.c:28-39 | The score does not depend on the order of the trees. |
| IsolationForest.ScoreBounds | src/ai/isolation_forest.c:35-39 | The score lies between 100 - floor(50/d) and 100 - floor(10/d), so neither clamp ever applies. |
| IsolationForest.Forest.Init | src/ai/isolation_forest.c:5-16 | Node k has the random numbers 2k and 2k + 1, reduced to a feature index below 6 and a threshold below 256, which makes the forest safe to score. |
| IsolationForest.Forest.ScoreEvent | src/ai/isolation_forest.c:25-40 | The loop, the truncating divisions and the clamps compute Score without overflow; a missing vector scores 0 and a negative tree count 100. |
| ModelStore.IntRoundTrip | src/ai/model.c:14-29 | Decoding the four bytes of a 32-bit int gives it back. |
| ModelStore.BytesRoundTrip | src/ai/model.c:14-29 | Encoding the int of any four bytes gives them back. |
| ModelStore.EncodedLayout | src/ai/model.c:14-16 | Bytes 0 to 3 of a blob are the node count and 4 to 7 the depth, and from 8 + 8k on there are the feature index and the threshold of node k, all little-endian two's complement. |
| ModelStore.ForestRoundTrip | src/ai/model.c:10-32 | Decoding an encoded forest gives back its depth and every node, for any number of nodes. |
| ModelStore.BlobRoundTrip | src/ai/model.c:10-32 | Encoding the forest decoded from a blob of exactly the announced size gives back the blob. |
| ModelStore.Save | src/ai/model.c:7-21 | The store holds exactly the encoded forest under the key, whatever its feature indices, or is unchanged and the result is -1. |
| ModelStore.WellFormedIsReadable | src/ai/model.c:28-32 | The copies out of a blob stay inside it if and only if the blob is well formed, the condition under which loading is defined. |
| ModelStore.Load | src/ai/model.c:23-36 | The forest becomes exactly the decoded blob in a fresh array, or is unchanged and the result is -1. |
| ModelStore.SaveThenLoad | src/ai/model.c:7-36 | A forest saved and loaded again scores every feature vector as before, and no other key is touched. |

## Left out

- BusProtocol.Apply: a slot copy is one step and atomics are sequentially consistent, because torn copies and the C memory model are outside the model.
- BusSafety.QuiescentPending: says nothing of a pending count read while calls are in flight, because its two loads may then see different moments.
- EventBus.Bus.Init: a ring that is replaced or lost is not tracked as a leak.
- MerkleCompute.ComputeMerkleRoot: a read error counts as the end of the file, as it does for fread; sizes in bytes are unbounded.
- RuleEngine.RuleTable.EvaluateAndAct: the trigger count is not limited to 32 bits, and logging is left out; a NUL is demanded somewhere behind the last action, because C would read past the table.
- RuleEngine.LoadThenEvaluate: fields of 255 and 127 characters or more are shut out, because the byte behind them is whatever realloc left there (`CText.StrncpyReadsBack`).
- RuleEngine.RuleTable.Load: says nothing of calls that write out of bounds, for which C gives no meaning.
- RuleCondition.Evaluate: a payload holds a NUL somewhere, because strstr would otherwise read past its end; the condition comes from the table and is never NULL.
- Decimal.Atoi: out-of-range digits follow glibc, a 64-bit strtol truncated to int.
- Lstm.Run: floats are reals, so rounding, infinities and NaN are left out.
- IsolationForest.Forest.Init: the results of rand are a parameter, time seeding is left out, and a failed calloc, which the code does not check, is not modelled.
- ModelStore.Load: the malloc of the nodes, which the code does not check, is taken to succeed, and a blob that is not well formed is shut out, because loading reads past its end.
- SQLite, logging, eBPF loading, the terminal interface, metrics, plugins, configuration, feature extraction, file walking and the monitor threads: wrappers and input/output, or only easy members.
