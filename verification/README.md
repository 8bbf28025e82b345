# Verified models of naga's data paths and data structures

naga captures packets, hands them to worker threads, looks hosts up in rule tables and is configured from a
command line. The modules here model the hardest of that code and prove what it is meant to guarantee.

| part | files | source |
|---|---|---|
| packet path | `MqRing`, `PacketPath`, `PacketSafety`, `PacketDelivery`, `MqQueue` | `itf_mq_ring.c`, `itf_pcap.c`, `itf_worker_thread.c`, `itf_mq_queue.c` |
| checksums and hashes | `Fletcher`, `InternetChecksum`, `Md5`, `JHash` | `checksum.c`, `md5.c`, `jhash.c` |
| containers | `PriorityQueue`, `HashSpec`, `HashTable`, `OutputBuffer`, `LinkList`, `IfName`, `Interfaces` | `pqueue.c`, `hash.c`, `buffer.c`, `linklist.c`, `if.c` |
| domain table | `CircularList`, `BtsLinkList`, `DomainRule`, `RuleMap`, `DomainTable` | `bts_list.h`, `bts_linklist.c`, `bts_hashtable.c`, `dmr.c` |
| command lines | `GetOpt`, `GetOptLines`, `CommandSpec`, `CommandMatcher`, `CommandOrder`, `CommandLines` | `getopt.c`, `command.c` |
| shared | `Wrappers`, `Bytes`, `Bits`, `Sequences` | option type, octets and 32-bit ints, masks and exclusive or on digits, distinctness |

How the parts are modelled:

* The packet path is a transition system. A step is one access to shared memory by one thread (test a ring, load
  a slot, advance an index, take a lock, store, unlock), and a schedule is any sequence of threads. Memory is
  sequentially consistent. The linked queue is a second such system in which an address may be allocated again
  after it was freed.
* Code that updates objects or arrays is a class or a method over heap objects, proved against functions on
  sequences, multisets or maps; the properties of those functions are lemmas.
* Machine widths are explicit: ring indices and the MD5 bit counter wrap, the Fletcher sums are 32-bit signed
  ints whose absence of overflow is proved, `strtol` saturates.
* Calls into the kernel, the clock, the network and unseen libraries are parameters: `write` and `writev` are an
  arbitrary function from the bytes offered to a count, a retry or a failure; the MD5 block function, the hash
  of the domain table and the matchers for numbers and addresses are arbitrary functions.

Where the code does not do what its documentation says, the code is followed:

* `5802 should be fine` beside the Fletcher block length holds for unsigned sums only (`Fletcher.LongestBlocks`).
* Generating a Fletcher checksum and validating the buffer gives 0 for every short tail, and for longer ones
  exactly when the conversion to int drops a multiple of 255 times 2^32 (`Fletcher.ValidatesIff`).
* The interface order is not the order of letter runs that its comment describes when a character below the
  digits meets a digit: "eth.1" comes before "eth1" (`IfName.DocumentedIffNoClash`, `IfName.DotBeforeDigit`).
  Names with the same letters and numbers compare as "less" both ways round if they end in a character, as "eth1a"
  and "eth01a" do (`IfName.TieRule`, `IfName.EachIsLess`).
* `list_cut_position` on an empty head leaves the other list alone, so cutting and splicing back restores the head
  exactly when it was not empty or the other list was (`CircularList.CutThenSplice`).
* A rule whose stored length differs from its name may be added and not found again
  (`DomainTable.FoundIffSameBucket`, `DomainTable.AddedButNotFound`).
* A getopt scan repeated on the rearranged arguments differs when the last option lacked its argument
  (`GetOpt.RescanIff`, `GetOpt.RescanFails`).
* Storing the Internet checksum and checking again gives 0 unless the fold of the word sum carries a second time
  (`InternetChecksum.SealedChecksIff`). No block of up to 131078 octets, its field included, does that
  (`InternetChecksum.SealAndCheck`); one of 131079 does (`InternetChecksum.ShortestFailure`), and filled up to whole
  words it also breaks the rule that swapping the octets of the words swaps those of the checksum
  (`InternetChecksum.SwappingFails`).
* Keywords typed in full may come in any order if and only if no head is extended by two earlier ones or the
  filter is strict (`CommandOrder.OrderIsIrrelevantIff`). That is about distinct keywords. A line may also repeat
  keywords that no other head extends (`CommandOrder.KeywordOrderIsIrrelevant`), which is sufficient and not
  necessary; a repeated keyword that another head extends can be taken for the longer one, and then the order
  decides which argument gets which word (`CommandOrder.RepeatTakenForLonger`, `CommandOrder.RepeatedOrderMatters`).
* An optional word left out at the end of the line makes argc smaller (`CommandOrder.ArgcIffNothingOmitted`).

## Model

| member | source | states |
|---|---|---|
| MqRing.LiveSlotsNeverCollide | src/naga/itf/itf_mq_ring.c:16-40 | two live entries never share a masked slot, wherever the free-running 32-bit indices stand |
| MqRing.PutAppends | src/naga/itf/itf_mq_ring.c:24-25 | a store at the masked `in` and its advance append to the queue, through the wrap at 2^32 |
| MqRing.StoreIsInvisible | src/naga/itf/itf_mq_ring.c:24 | the store alone changes no queued value, so a consumer without the lock sees nothing of it |
| MqRing.GetDropsFirst | src/naga/itf/itf_mq_ring.c:37-38 | the masked `out` slot holds the oldest value and advancing `out` removes just that one |
| MqRing.Ring.constructor | src/naga/itf/itf_mq_ring.c:6-14 | a ring of a power of two slots starts empty |
| MqRing.Ring.Enring | src/naga/itf/itf_mq_ring.c:16-28 | appends unless the queue holds size values, and reports which |
| MqRing.Ring.Dering | src/naga/itf/itf_mq_ring.c:31-40 | removes and returns the oldest value, or reports that there is none |
| MqRing.Run | src/naga/itf/itf_mq_ring.c:16-40 | every run of calls, from any indices, answers exactly as a bounded first-in first-out queue does |
| PacketSafety.FillPool | src/naga/itf/itf_pcap.c:360-377 | filling the pool never fails and gives the initial ring of 1024 packets |
| PacketPath.ExecKeepsWf | src/naga/itf/itf_pcap.c:211-250 | no access of any thread names a ring, a worker or a packet that does not exist |
| PacketSafety.PoolHasRoom | src/naga/itf/itf_pcap.c:240-244 | while a thread holds a packet, the pool ring it came from has a free slot |
| PacketSafety.StepKeepsInv | src/naga/itf/itf_pcap.c:191-263 | any access of any thread keeps the whole invariant: rings within size, locks held by their users, every packet placed once |
| PacketSafety.RunInv | src/naga/itf/itf_worker_thread.c:41-65 | the invariant holds in every reachable state of every interleaving |
| PacketSafety.EveryBufferInOnePlace | src/naga/itf/itf_pcap.c:227-250 | in every reachable state each of a pool's 1024 packets is on exactly one ring, once, or in exactly one thread's hands; that pool ring or capture thread is its own |
| PacketSafety.NothingIsEverLost | src/naga/itf/itf_worker_thread.c:59-63 | no run takes the capture fail2 branch, the worker fail1 branch or a bad return ring |
| PacketSafety.RingsAreFifo | src/naga/itf/itf_mq_ring.c:16-40 | over every interleaving, what went into a ring is what came out of it followed by what it holds |
| PacketSafety.ExclusiveOwnership | src/naga/itf/itf_pcap.c:232-236 | no access changes the bytes of a packet that another thread holds or that waits for a worker |
| PacketSafety.FramesArriveIntact | src/naga/itf/itf_worker_thread.c:43-59 | each worker takes from its ring exactly the packets stored on it, in order and with their bytes unchanged |
| PacketDelivery.FramesAreForwarded | src/naga/itf/itf_pcap.c:191-250 | the frames a handler was called with while its pool had a packet, read off the schedule, are in order those it stored on worker rings or counted as refused, followed by at most one in hand; frame k is for worker k modulo their number |
| PacketDelivery.TurnIsCount | src/naga/itf/itf_pcap.c:211-212 | the worker in turn is the number of frames let through so far modulo the number of workers, one behind an empty pool included |
| PacketDelivery.ProcessedWasOnTheWire | src/naga/itf/itf_worker_thread.c:41-58 | whatever a worker processes is, octet for octet, a frame that some handler was called with when that worker was in turn |
| PacketDelivery.PoolEmptyReported | src/naga/itf/itf_pcap.c:228-250 | a call of the handler counts as failed for want of a packet if and only if the pool is empty |
| PacketDelivery.WorkerEmptyReported | src/naga/itf/itf_worker_thread.c:44-47 | a worker counts a failure if and only if its ring is empty |
| PacketDelivery.CheckDecides | src/naga/itf/itf_mq_ring.c:19-25 | the test of a ring refuses a packet if and only if as many are queued as the ring has slots |
| PacketDelivery.RefusedAfterTest | src/naga/itf/itf_mq_ring.c:16-28 | a thread that was refused found the ring full at its last access |
| PacketDelivery.WorkerFullMeansFull | src/naga/itf/itf_pcap.c:236-240 | a frame counts as refused by its worker only if its worker held 128 packets at the test, the last access of that thread before |
| PacketDelivery.AloneGetsIdle | src/naga/itf/itf_pcap.c:191-250 | a capture or worker thread left alone, with the locks it needs free, is done with its packet after at most 11 accesses |
| MqQueue.StepOk | src/naga/itf/itf_mq_queue.c:13-40 | any step of enqueue or dequeue keeps the chain, the locks and the ownership of nodes, and acts on the contents as a sequential queue would |
| MqQueue.RunIsFifo | src/naga/itf/itf_mq_queue.c:13-40 | every interleaving under the two locks linearizes to one first-in first-out queue, whose contents are the nodes after the dummy |
| MqQueue.ValuesKeepOrder | src/naga/itf/itf_mq_queue.c:13-40 | in every run the values enqueued are, in order, those dequeued followed by those the queue holds, and a dequeue finds it empty only when it is |
| MqQueue.CallsTakeEffectOnce | src/naga/itf/itf_mq_queue.c:13-40 | every completed call of every thread has exactly one effect on that queue, between its invocation and its return, and an enqueue puts in the value it was called with |
| MqQueue.CallReturns | src/naga/itf/itf_mq_queue.c:13-40 | a thread left alone, with the lock it needs free, has returned after at most 7 steps and holds no lock |
| MqQueue.NothingLeaks | src/naga/itf/itf_mq_queue.c:25-40 | in every run every allocated node is linked or in the hands of one thread, so each node taken out is freed |
| MqQueue.NoUseAfterFree | src/naga/itf/itf_mq_queue.c:25-40 | in every reachable state the nodes that any thread reads, writes or frees next are allocated; freed addresses may be allocated again |
| MqQueue.TailMayLagOnFreedNode | src/naga/itf/itf_mq_queue.c:18-19 | the tail pointer may name a freed node between the link write and the tail swing |
| GetOpt.ScanIsStablePartition | src/naga/libzebra/getopt.c:547-622 | the reference parse splits the arguments into options with their arguments and "--", and operands, both in original order |
| GetOpt.SwapBlocks | src/naga/libzebra/getopt.c:354-377 | the inner loops exchange two blocks of one length and touch nothing else |
| GetOpt.ExchangeBlocks | src/naga/libzebra/getopt.c:345-381 | the loop terminates and rotates two adjacent blocks of any lengths, each keeping its order |
| GetOpt.Getopt.constructor | src/naga/libzebra/getopt.c:394-458 | the first call sets up a scan of everything after the program name |
| GetOpt.Getopt.Exchange | src/naga/libzebra/getopt.c:309-387 | rotates the skipped operands behind the options just seen and moves both bounds |
| GetOpt.Getopt.SettleOptions | src/naga/libzebra/getopt.c:563-566 | moving options in front of skipped operands does not change what remains to be parsed |
| GetOpt.Getopt.SkipOperands | src/naga/libzebra/getopt.c:571-573 | skipping operands does not change what remains to be parsed and stops at an option element |
| GetOpt.Getopt.AtDashes | src/naga/libzebra/getopt.c:581-592 | "--" ends the options: argv is then final and everything after it is an operand |
| GetOpt.Getopt.Advance | src/naga/libzebra/getopt.c:547-622 | the scan ends only when no option is left, with argv rearranged and optind at the first operand |
| GetOpt.Getopt.NextChar | src/naga/libzebra/getopt.c:773-969 | one option character is the next option of the reference parse, with its required or optional argument, and optopt names one that is unknown or lacks its argument |
| GetOpt.Getopt.Next | src/naga/libzebra/getopt.c:516-622 | a call returns the next option, or -1 with argv in its final order and optind at the boundary |
| GetOpt.ParseAll | src/naga/libzebra/getopt.c:974-982 | calling until -1 returns all options in order and leaves argv a stable partition with optind at the boundary |
| GetOptLines.NeedIs | src/naga/libzebra/getopt.c:773-969 | what surrounds a character in optstring decides whether it takes no argument, requires one, allows one or is unknown |
| GetOptLines.ScanItem | src/naga/libzebra/getopt.c:773-969 | one element means what it was written for: several plain options, an argument attached or in the next element, an optional one attached or missing, unknown characters as '?', or an operand |
| GetOptLines.LineReadsBack | src/naga/libzebra/getopt.c:773-969 | any list of such elements is read back as the options it was written for, whatever follows it |
| GetOptLines.RoundTrip | src/naga/libzebra/getopt.c:547-622 | options and operands written out as arguments, with or without "--" and operands behind it, parse into exactly those options and operands |
| GetOptLines.MissingAtEnd | src/naga/libzebra/getopt.c:946-964 | a required argument missing at the end gives ':' where optstring starts with a colon and '?' elsewhere |
| GetOpt.RescanIff | src/naga/libzebra/getopt.c:547-622 | scanning the rearranged arguments again gives the same parse if and only if no final option without its argument can take the first operand |
| GetOpt.RescanFails | src/naga/libzebra/getopt.c:946-964 | an instance: "x -a" where "a" requires an argument is rearranged to "-a x", in which "-a" takes "x" |
| Fletcher.SumBounds | src/naga/libzebra/checksum.c:80-94 | how large the unreduced sums of a block can be |
| Fletcher.LongestBlocks | src/naga/libzebra/checksum.c:50 | from any reduced state 4102 is the longest block free of signed overflow, 5802 the longest for unsigned sums |
| Fletcher.WorstStateOccurs | src/naga/libzebra/checksum.c:50 | the state that makes 4103 too long is reached by a buffer |
| Fletcher.AddBlock | src/naga/libzebra/checksum.c:82-88 | one block is summed in 32-bit signed ints without overflow |
| Fletcher.Sums | src/naga/libzebra/checksum.c:76-94 | block-wise reduction gives the unreduced sums modulo 255, for a buffer of any length |
| Fletcher.X | src/naga/libzebra/checksum.c:97-100 | the first check octet is in 1..255 |
| Fletcher.Y | src/naga/libzebra/checksum.c:101-103 | the second check octet is in 1..255 |
| Fletcher.ValidatesIff | src/naga/libzebra/checksum.c:97-123 | generating then validating gives 0 if and only if the int conversion drops a multiple of 255 times 2^32 |
| Fletcher.VerdictIff | src/naga/libzebra/checksum.c:105-123 | validation returns both sums modulo 255, hence 0 exactly when both are divisible by 255 |
| Fletcher.OneErrorIsSeen | src/naga/libzebra/checksum.c:76-123 | a buffer that validates does not after one octet changed, unless 0 and 255 stand for each other |
| Fletcher.SwapIsSeen | src/naga/libzebra/checksum.c:76-123 | with two octets exchanged it validates if and only if 255 divides the product of their distance and difference |
| Fletcher.ShortTailsValidate | src/naga/libzebra/checksum.c:97-123 | it gives 0 for every buffer and offset whose tail times 254 fits an int |
| Fletcher.LongTailFails | src/naga/libzebra/checksum.c:97 | a buffer beyond that bound for which it does not give 0 |
| Fletcher.Checksum | src/naga/libzebra/checksum.c:56-124 | validation leaves the buffer alone and returns the two sums; generation writes just the two check octets and returns them |
| Fletcher.GenerateThenValidate | src/naga/libzebra/checksum.c:56-124 | the two calls in a row on one buffer: 0 exactly under that condition |
| InternetChecksum.InCksum | src/naga/libzebra/checksum.c:12-47 | the loop returns the complement of the twice-folded sum of 16-bit words, an odd last octet padded |
| InternetChecksum.FoldExactIff | src/naga/libzebra/checksum.c:43-45 | two folds are exact modulo 65535 if and only if the second does not carry |
| InternetChecksum.FoldOf32Bits | src/naga/libzebra/checksum.c:43-45 | they are exact for every 32-bit sum, and zero only for zero |
| InternetChecksum.SealedChecksIff | src/naga/libzebra/checksum.c:12-47 | with its checksum stored in a zeroed even field a block sums to all ones if and only if the fold of its word sum did not carry again |
| InternetChecksum.SealAndCheck | src/naga/libzebra/checksum.c:12-47 | computing, storing and computing again gives 0 exactly then, and for every block of up to 131078 octets |
| InternetChecksum.ShortestFailure | src/naga/libzebra/checksum.c:43-45 | a block of 131079 octets, one more than that, whose stored checksum does not check |
| InternetChecksum.SwappingCommutesIff | src/naga/libzebra/checksum.c:12-47 | swapping the octets of all words swaps those of the checksum, section 2(B) of RFC 1071, if and only if neither fold carries again |
| InternetChecksum.SwappingFails | src/naga/libzebra/checksum.c:43-45 | a block of 131080 octets whose checksum does not swap with its words |
| Md5.Md5Ctx.Loop | src/naga/libzebra/md5.c:149-171 | whole blocks go to the block function, the rest waits, and the bit count grows by the 32-bit product |
| Md5.Md5Ctx.Pad | src/naga/libzebra/md5.c:173-205 | padding applies the block function to exactly the padded blocks of sections 3.1 and 3.2 of RFC 1321 |
| Md5.PadPieces | src/naga/libzebra/md5.c:178-188 | the pieces copied from the padding table make up one bit, zeros to 56 octets |
| Md5.PaddedLooksLike | src/naga/libzebra/md5.c:173-205 | the padded message is the message, the octet 0x80, the fewest zeros that leave 8 octets, and the count of bits modulo 2^64, low octet first |
| Md5.Md5Ctx.Result | src/naga/libzebra/md5.c:207-223 | the digest holds the octets of the four state words, low octet first, and the words can be read back from it |
| Md5.CountIff | src/naga/libzebra/md5.c:154 | the bit count stays right if and only if a piece has fewer than 2^29 octets |
| Md5.DigestPieces | src/naga/libzebra/md5.c:138-223 | the digest does not depend on how the message is split |
| Md5.MakePad | src/naga/libzebra/md5.c:345-355 | a pad is the key filled up with zeros, each octet xored with the constant |
| Md5.HmacMd5 | src/naga/libzebra/md5.c:302-373 | hmac_md5 is the HMAC of section 2 of RFC 2104, keys longer than a block hashed first |
| Md5.HmacOfBlock | src/naga/libzebra/md5.c:345-372 | with a key of one block the result is the digest of the key xored with 0x5c and the digest of the key xored with 0x36 and the text |
| Md5.KeysThatCountAlike | src/naga/libzebra/md5.c:325-342 | a longer key counts as its digest, and a shorter one as if a zero followed it |
| JHash.MixIsBijective | src/naga/libzebra/jhash.c:27-38 | the mixing step is a bijection on triples of 32-bit words |
| JHash.JHash | src/naga/libzebra/jhash.c:44-102 | the switch that falls through hashes the last 0 to 11 octets as zero-padded words beside the length |
| JHash.JHash2 | src/naga/libzebra/jhash.c:107-139 | the word loop and its tail hash groups of three words |
| JHash.ShortKey | src/naga/libzebra/jhash.c:44-102 | a key of fewer than 12 octets is hashed by one mixing step, each octet and the length in its place |
| JHash.HashesAgree | src/naga/libzebra/jhash.c:44-139 | the octet form on little-endian octets equals the word form, for every word array |
| JHash.HashBothWays | src/naga/libzebra/jhash.c:44-139 | running both on n < 2^30 words gives one result |
| PriorityQueue.PQueue.constructor | src/naga/libzebra/pqueue.c:109-123 | a new queue is empty |
| PriorityQueue.PQueue.TrickleUp | src/naga/libzebra/pqueue.c:45-69 | moving an element up restores the heap, keeps the elements and reports every new position |
| PriorityQueue.PQueue.TrickleDown | src/naga/libzebra/pqueue.c:71-107 | moving an element down does the same |
| PriorityQueue.PQueue.Expand | src/naga/libzebra/pqueue.c:132-148 | doubling the array keeps the elements in place |
| PriorityQueue.PQueue.Enqueue | src/naga/libzebra/pqueue.c:150-161 | adds one element, keeps the heap and the reported positions |
| PriorityQueue.PQueue.Dequeue | src/naga/libzebra/pqueue.c:163-170 | removes and returns a least element and keeps the rest |
| PriorityQueue.PQueue.RemoveAt | src/naga/libzebra/pqueue.c:172-187 | removes exactly the element at any index, the last one included, and keeps heap, elements and positions |
| PriorityQueue.RootIsMinimum | src/naga/libzebra/pqueue.c:163-170 | the first slot of a heap is least |
| PriorityQueue.Drain | src/naga/libzebra/pqueue.c:163-170 | dequeuing to the end yields the elements in order |
| PriorityQueue.HeapSort | src/naga/libzebra/pqueue.c:150-187 | enqueuing any list and draining yields a sorted permutation of it |
| HashSpec.LookupIff | src/naga/libzebra/hash.c:122-130 | a lookup finds a value if and only if it is stored, has the same key and the comparison says so |
| HashSpec.SameBagSameLookups | src/naga/libzebra/hash.c:65-109 | two tables of the same values answer alike whatever their sizes |
| HashSpec.InsertAddsOneClass | src/naga/libzebra/hash.c:145-151 | a new value answers for its class and no other class is affected |
| HashSpec.RemoveDropsOneClass | src/naga/libzebra/hash.c:187-203 | releasing a value empties its class and no other class is affected |
| HashTable.HashTable.constructor | src/naga/libzebra/hash.c:28-45 | a new table is empty |
| HashTable.HashCreate | src/naga/libzebra/hash.c:48-53 | the default size of 256 is a power of two |
| HashTable.MoveFirst | src/naga/libzebra/hash.c:76-84 | relinking one backet moves it to the bucket its key selects in the new index and loses none |
| HashTable.Rehash | src/naga/libzebra/hash.c:70-89 | after the loops every backet is in the bucket of its key and the values are those of before |
| HashTable.CountLosers | src/naga/libzebra/hash.c:94-105 | counts the backets beyond half the threshold and notes chains that reach it |
| HashTable.HashTable.HashExpand | src/naga/libzebra/hash.c:65-109 | the size doubles, count and values stay, no lookup changes, and expansion is given up exactly when it did not help |
| HashTable.HashTable.Seek | src/naga/libzebra/hash.c:122-130 | the search finds the first matching backet and its predecessor |
| HashTable.HashTable.Insert | src/naga/libzebra/hash.c:145-151 | a backet at the front of its chain adds one value |
| HashTable.HashTable.HashGet | src/naga/libzebra/hash.c:113-154 | returns the value of the class, or adds one if it may; the index doubles exactly when the chain is longer than 10 and expansion was not given up |
| HashTable.HashTable.HashLookup | src/naga/libzebra/hash.c:156-161 | returns the value of the class and adds nothing |
| HashTable.UnlinkNext | src/naga/libzebra/hash.c:193-194 | bypassing a backet in the middle of a chain leaves every other chain alone |
| HashTable.HashTable.HashRelease | src/naga/libzebra/hash.c:177-206 | removes and returns exactly the value of the class, if any |
| HashTable.HashTable.Run | src/naga/libzebra/hash.c:113-206 | any sequence of gets, releases and expansions is a run of a finite map on classes, with count its size, up to a call that might double an index of 2^31 slots |
| HashTable.HashTable.HashIterate | src/naga/libzebra/hash.c:208-226 | every value is visited once even if the callback releases it, and those kept stay |
| HashTable.HashTable.HashClean | src/naga/libzebra/hash.c:228-250 | every value is freed once and the table is empty with count 0 |
| OutputBuffer.Buffer.BufferAdd | src/naga/libzebra/buffer.c:145-163 | an empty chunk is linked at the end |
| OutputBuffer.Buffer.Fill | src/naga/libzebra/buffer.c:181-185 | as much as fits goes into the last chunk, which is full if anything is left over |
| OutputBuffer.Buffer.BufferPut | src/naga/libzebra/buffer.c:165-187 | the bytes are appended to what is pending |
| OutputBuffer.Buffer.BufferGetstr | src/naga/libzebra/buffer.c:101-121 | the string is the pending bytes and a zero |
| OutputBuffer.Buffer.BufferEmpty | src/naga/libzebra/buffer.c:123-128 | empty means that nothing is pending |
| OutputBuffer.Buffer.Chunky | src/naga/libzebra/buffer.c:30-52 | no chunk is empty and all but the last are filled to the end |
| OutputBuffer.Buffer.GatherChunks | src/naga/libzebra/buffer.c:412-418 | what writev is offered |
| OutputBuffer.OfferIsAPart | src/naga/libzebra/buffer.c:396-418 | the offer is the front of the queue: at most 16 chunks, under 131072 bytes before its last one, and no shorter than those limits make it |
| OutputBuffer.Buffer.Release | src/naga/libzebra/buffer.c:436-458 | the bytes written leave the queue, through whole and partial chunks, and the corruption branch is not taken |
| OutputBuffer.Buffer.BufferFlushAvailable | src/naga/libzebra/buffer.c:392-460 | what the kernel reports as written, and only that, leaves the front of the queue and is delivered; on a retry or an error nothing does; the status says what is left |
| OutputBuffer.Buffer.BufferWrite | src/naga/libzebra/buffer.c:462-496 | writes directly only when nothing is queued; what the kernel does not take is queued in order |
| OutputBuffer.Buffer.Run | src/naga/libzebra/buffer.c:165-496 | over every run, each operation makes the system call it must, the bytes delivered are what the kernel reported as taken, call by call, and followed by the bytes pending they are the bytes submitted, in order; it ends early only at a call that failed |
| LinkList.List.LinkBefore | src/naga/libzebra/linklist.c:100-111 | linking before a node keeps all pointers, head and count right |
| LinkList.List.LinkLast | src/naga/libzebra/linklist.c:115-123 | linking at the end does the same |
| LinkList.List.Add | src/naga/libzebra/linklist.c:55-74 | appends a value |
| LinkList.List.AddSort | src/naga/libzebra/linklist.c:83-123 | inserts before the first value that the new one is less than, else at the end |
| LinkList.List.AddAfter | src/naga/libzebra/linklist.c:125-160 | inserts behind the given node or at the front |
| LinkList.List.Delete | src/naga/libzebra/linklist.c:170-196 | removes the first node with this value and no other |
| IfName.IfCmp | src/naga/libzebra/if.c:57-112 | the sign of the result is the lexicographic comparison of the characters and numbers of the names |
| IfName.NumeralOrder | src/naga/libzebra/if.c:95-102 | numbers that fit compare by the count of their digits and then by the digits |
| IfName.NumeralSaturates | src/naga/libzebra/if.c:95-96 | a number that does not fit reads as LONG_MAX |
| IfName.LeadingZero | src/naga/libzebra/if.c:95-96 | zeros in front of a number change nothing |
| IfName.PrintedReadsBack | src/naga/libzebra/if.c:95-96 | a number printed in decimal reads back as itself, up to LONG_MAX |
| IfName.NumbersDecide | src/naga/libzebra/if.c:92-111 | two names alike up to a number that differs are ordered by it, whatever follows |
| IfName.NineBeforeTen | src/naga/libzebra/if.c:92-111 | "eth9" comes before "eth10" |
| IfName.DifferentRuns | src/naga/libzebra/if.c:76-77 | where runs of characters differ in length, strcmp decides as the characters and numbers do |
| IfName.SameRuns | src/naga/libzebra/if.c:82-90 | where they have one length, strncmp does, or the comparison goes on behind them |
| IfName.OrderIsAntisymmetric | src/naga/libzebra/if.c:57-112 | names that differ as characters and numbers are never equal, and swapping them swaps the sign |
| IfName.OrderIsTransitive | src/naga/libzebra/if.c:57-112 | the order is transitive |
| IfName.TieRule | src/naga/libzebra/if.c:92-111 | names alike compare as -1 if they end in a character and as 0 otherwise |
| IfName.EachIsLess | src/naga/libzebra/if.c:92-111 | an instance: "eth1a" and "eth01a" differ, and each compares as less than the other |
| IfName.LeIsTotalPreorder | src/naga/libzebra/if.c:57-112 | with alike names counted as equal the function gives a total preorder |
| IfName.DocumentedIffNoClash | src/naga/libzebra/if.c:49-56 | it orders two names as its comment says if and only if they do not first differ in a number and a character below the digits |
| IfName.PlainNamesNeverClash | src/naga/libzebra/if.c:49-56 | names without such characters are always ordered as documented |
| IfName.DotBeforeDigit | src/naga/libzebra/if.c:76-77 | "eth1" and "eth.1" are not |
| Interfaces.InsertKeepsSorted | src/naga/libzebra/linklist.c:94-112 | sorted insertion under this comparison keeps the list sorted |
| Interfaces.IfCreate | src/naga/libzebra/if.c:115-129 | creating interfaces keeps the list linked, counted, sorted and free of double names |
| Interfaces.NumbersInOrder | src/naga/libzebra/if.c:115-129 | on the list interfaces of one prefix stand in the order of their numbers |
| Interfaces.SortedAsDocumented | src/naga/libzebra/if.c:49-56 | the list is in the documented order when no name has a character below the digits |
| CircularList.ListIsUnique | src/naga/boots/bts_list.h:186-189 | the pointers determine the entries of a ring |
| CircularList.InitListHead | src/naga/boots/bts_list.h:30-34 | makes an empty ring |
| CircularList.ListEmpty | src/naga/boots/bts_list.h:186-189 | true exactly for a ring without entries |
| CircularList.ListIsSingular | src/naga/boots/bts_list.h:214-217 | true exactly for a ring of one entry |
| CircularList.ListAddTail | src/naga/boots/bts_list.h:80-83 | the new node becomes the last entry |
| CircularList.ListDel | src/naga/boots/bts_list.h:92-96 | one entry leaves, the others stay linked; its own pointers, which `list_del` then clears, are untouched |
| CircularList.CutBetween | src/naga/boots/bts_list.h:219-229 | the first part becomes one ring and the second another |
| CircularList.ListCutPosition | src/naga/boots/bts_list.h:245-268 | splits into prefix and suffix at any entry; does nothing for an empty head or a stray entry of a short list |
| CircularList.SpliceBetween | src/naga/boots/bts_list.h:270-280 | the entries of one ring go into any gap of another |
| CircularList.ListSplice | src/naga/boots/bts_list.h:287-294 | they come first |
| CircularList.ListSpliceTail | src/naga/boots/bts_list.h:301-308 | they come last |
| CircularList.CutThenSplice | src/naga/boots/bts_list.h:231-294 | cutting at any entry, head and last included, and splicing back restores the list if and only if it was not empty or the other list was |
| CircularList.EmptyHeadGainsOldEntry | src/naga/boots/bts_list.h:248-251 | a run in which it does not |
| DomainRule.StrCmpIsEquality | src/naga/boots/bts_util.c:32-41 | strcmp is 0 exactly for equal strings in zero-terminated arrays |
| DomainRule.CmpComparesNames | src/naga/dmr/dmr.c:28-42 | the comparison is 0 exactly for two rules of one name; missing data is never equal |
| DomainRule.KeyOf | src/naga/dmr/dmr.c:79-87 | the key that dmr_get builds has the sought name and hashes it |
| BtsLinkList.BtsList.LookupByKey | src/naga/boots/bts_linklist.c:305-334 | finds the first node of that name, or none |
| BtsLinkList.BtsList.DeleteByKey | src/naga/boots/bts_linklist.c:337-359 | unlinks the first node of that name, and only it, with the count |
| BtsLinkList.BtsList.Add | src/naga/boots/bts_linklist.c:361-399 | replaces the rule of the same name in its node, else appends a node |
| RuleMap.PutUpdates | src/naga/boots/bts_linklist.c:361-399 | as seen through the map from bucket and name to rule, adding is map update |
| RuleMap.RemoveRemoves | src/naga/boots/bts_linklist.c:337-359 | deleting is map removal |
| RuleMap.OneNodePerKey | src/naga/boots/bts_linklist.c:361-399 | there are as many nodes as map entries |
| DomainTable.Table.constructor | src/naga/dmr/dmr.c:44-49 | a table of any number of buckets starts empty |
| DomainTable.Table.Lookup | src/naga/boots/bts_hashtable.c:47-78 | a missing key or no buckets gives nothing, otherwise the rule of that bucket and name |
| DomainTable.Table.Add | src/naga/boots/bts_hashtable.c:134-163 | E_PARAM, E_INIT, or the one bucket changes |
| DomainTable.Table.Del | src/naga/boots/bts_hashtable.c:166-192 | E_PARAM, E_INIT, or the one bucket loses the rule of that name |
| DomainTable.Table.ClearBucket | src/naga/boots/bts_linklist.c:421-439 | deleting the current node inside the iteration visits every node of the bucket once and empties it |
| DomainTable.Table.Clear | src/naga/dmr/dmr.c:125-134 | clearing calls back once with every rule, in order, and leaves an empty table with no nodes |
| DomainTable.Table.DmrGet | src/naga/dmr/dmr.c:78-88 | returns the rule of that host |
| DomainTable.Table.DmrAdd | src/naga/dmr/dmr.c:89-93 | map update |
| DomainTable.Table.DmrDel | src/naga/dmr/dmr.c:111-123 | map removal; E_FOUND exactly when the host has no rule |
| DomainTable.FoundIffSameBucket | src/naga/dmr/dmr.c:13-26 | an added rule is found by its name if and only if the octets its stored length counts select the name's bucket |
| DomainTable.AddedButNotFound | src/naga/dmr/dmr.c:13-26 | an instance: host "a" stored with length 0 is in the table and a lookup of "a" finds nothing |
| DomainTable.FoundByEveryHashIff | src/naga/dmr/dmr.c:13-26 | it is found whatever the hash and the buckets are if and only if those octets are the name |
| DomainTable.FullLengthHashesTheName | src/naga/dmr/dmr_cmd.c:539-544 | the length of the name, as the command stores it, makes it so |
| DomainTable.OneNodePerHost | src/naga/boots/bts_hashtable.c:134-163 | then a host has at most one node in the whole table |
| CommandMatcher.PushArgument | src/naga/libzebra/command.c:1279-1293 | appends up to 25 arguments, a blank one as missing |
| CommandMatcher.Matcher.Terminal | src/naga/libzebra/command.c:1331-1379 | a terminal takes a word, a vararg the rest, an optional one nothing at the end |
| CommandMatcher.Matcher.Multiple | src/naga/libzebra/command.c:1381-1431 | a choice takes a word that some alternative matches |
| CommandMatcher.Matcher.ScanKeywords | src/naga/libzebra/command.c:1458-1484 | the scan finds the best keyword not yet seen, or an ambiguity |
| CommandMatcher.Matcher.ReadKeywords | src/naga/libzebra/command.c:1433-1540 | the loops read keywords and their words until the line, a mismatch or the index ends it |
| CommandMatcher.BuildKeywordArgs | src/naga/libzebra/command.c:1542-1614 | argv is filled keyword by keyword in the order of the command, absent ones as missing |
| CommandMatcher.Matcher.MatchKeyword | src/naga/libzebra/command.c:1616-1641 | an error in reading has priority over too many arguments |
| CommandMatcher.Matcher.ElementMatch | src/naga/libzebra/command.c:1667-1723 | the tokens in turn; complete when all words, or all but a blank one, are consumed |
| CommandLines.WordSuits | src/naga/libzebra/command.c:1190-1252 | which words suit a token: a range, an address, a variable, a beginning of a literal, or in strict mode the literal itself |
| CommandLines.BlankSuits | src/naga/libzebra/command.c:1196-1199 | a blank word suits every token, but in strict mode a missing one suits none |
| CommandLines.CompleteLeavesNothing | src/naga/libzebra/command.c:1712-1722 | a complete match leaves no word unread, or a last one that is blank |
| CommandLines.LineIsCommandIff | src/naga/libzebra/command.c:1667-1723 | for tokens of one word each a line is the command if and only if each token has a word that suits it, at most one blank word follows and no argument is over the limit; argv is then the words kept, and a word left over is no match |
| CommandLines.StopsAtToken | src/naga/libzebra/command.c:1331-1364 | at the first token that does not go with the line: an unsuitable word is no match, a missing one incomplete, a 26th argument one too many |
| CommandLines.GroupIsCommandIff | src/naga/libzebra/command.c:1433-1723 | with a keyword group at the end a line is the command if and only if the rest of it splits into keywords, each the best match for its word, with words that suit their tokens; argv is then given by those words |
| CommandLines.GroupStops | src/naga/libzebra/command.c:1451-1538 | what is answered to a line that goes wrong behind some keywords: no match, ambiguous or incomplete |
| CommandLines.PickedBest | src/naga/libzebra/command.c:1458-1484 | a word is taken for the keyword not yet seen that matches it best, for none if none does, and is ambiguous only if two match it equally well |
| CommandLines.WordFails | src/naga/libzebra/command.c:1486-1487 | a word taken for no keyword is no match, and one that may be several is ambiguous |
| CommandLines.KeywordFails | src/naga/libzebra/command.c:1489-1533 | a keyword with a word that does not suit is no match, and one that lacks a word it needs is incomplete |
| CommandLines.VarargTakesRest | src/naga/libzebra/command.c:1366-1378 | a vararg takes one word and the rest that is not blank, up to 25 arguments, and is complete |
| CommandLines.CompletesIff | src/naga/libzebra/command.c:1667-1711 | for completion the words up to the index are accepted if and only if each suits its token |
| CommandOrder.HeadMatches | src/naga/libzebra/command.c:1243-1251 | a head typed in full matches itself exactly, longer heads that start with it partly if the filter is relaxed, and no other |
| CommandOrder.ScanTyped | src/naga/libzebra/command.c:1458-1484 | an unseen head typed in full is found if at most one earlier unseen head starts with it and is ambiguous otherwise; a seen one is refused exactly when no unseen head starts with it |
| CommandOrder.HeadsFoundIff | src/naga/libzebra/command.c:1458-1484 | every head typed in full is found whatever was seen before if and only if the filter is strict or no head is extended by two earlier ones |
| CommandOrder.RepeatRefusedIff | src/naga/libzebra/command.c:1486-1487 | a head typed again is refused whatever else was seen if and only if no other head extends it or the filter is strict |
| CommandOrder.SegmentRead | src/naga/libzebra/command.c:1489-1537 | a keyword whose words suit its tokens is read as a whole, optional words at the end of the line being dispensable |
| CommandOrder.SegmentRefused | src/naga/libzebra/command.c:1486-1533 | a keyword typed again, or with a word that does not suit its token, is no match |
| CommandOrder.LineRead | src/naga/libzebra/command.c:1451-1538 | a line of accepted keywords is read to its end and gives the map from keyword to words |
| CommandOrder.LineRefused | src/naga/libzebra/command.c:1451-1538 | a line with a keyword that is not accepted is no match |
| CommandOrder.KeywordOrderIsIrrelevant | src/naga/libzebra/command.c:1434-1614 | permuting keywords typed in full, with any word for each token, gives the same result code and, unless that is no match, the same argc and argv |
| CommandOrder.PrefixFreeOrderIsIrrelevant | src/naga/libzebra/command.c:1434-1614 | with heads that are not prefixes of one another, or a strict filter, this holds on the shape of the line alone, repeated keywords included |
| CommandOrder.OrderMatters | src/naga/libzebra/command.c:1479-1483 | where two earlier heads extend a head, one order of the line is ambiguous and another is not |
| CommandOrder.OrderIsIrrelevantIff | src/naga/libzebra/command.c:1434-1614 | distinct keywords may be typed in any order if and only if the filter is strict or no head is extended by two earlier ones |
| CommandOrder.ArgcIffNothingOmitted | src/naga/libzebra/command.c:1543-1614 | on success argc is the number of places kept less the optional words left out at the end of the line, so it is the same whichever keywords are present if and only if none is left out |
| CommandOrder.OptionalWordChangesArgc | src/naga/libzebra/command.c:1340-1346 | an instance: "k" for the command "k [x]" gives no argument, an empty line gives one |
| CommandOrder.PrefixesMakeOrderMatter | src/naga/libzebra/command.c:1479-1483 | an instance: "ab" beside "ab1" and "ab2" is ambiguous typed first and found after "ab1" |
| CommandOrder.RepeatTakenForLonger | src/naga/libzebra/command.c:1468-1478 | an instance: "ab" typed again beside "abc" is taken for "abc", whatever the words that follow the two |
| CommandOrder.RepeatedOrderMatters | src/naga/libzebra/command.c:1434-1614 | for any two different words u and v, "ab u ab v" is accepted with argv u, v and "ab v ab u" with argv v, u |

## Left out

- Weak memory: the packet path and the queue assume sequentially consistent accesses.
- The `count` of the linked queue, which two locks update, and `destory_queue` and `destory_ring`.
- The switch that disables capturing, frames of which only a part was captured, and what a worker does with a packet.
- PacketDelivery.AloneGetsIdle: the other threads stand still; what a scheduler does to a thread that waits for a lock is not modelled.
- MqQueue.CallReturns: for the same reason only a thread left alone.
- GetOpt.Getopt.constructor: option strings that start with `-` or `+` select another ordering, and `W;` long options; neither is modelled, nor are the error messages.
- GetOpt.ParseAll: for the same option strings.
- Md5.Md5Ctx.Loop: pieces within 64 octets of 2^32 make the source's 32-bit index wrap; the block function itself is a parameter.
- Md5.DigestPieces: pieces of 2^29 octets or more leave a wrong bit count (`Md5.CountIff`), and what the digest then is depends on the block function.
- Md5.HmacMd5: texts and keys of 2^29 octets or more, for the same reason.
- HashTable.HashTable.HashExpand: an index of 2^31 slots, whose doubled size wraps to 0; allocation failure is not modelled.
- HashTable.HashTable.HashGet: a call that would double such an index.
- HashTable.HashTable.Run: stops at a call that might double such an index.
- HashTable.HashTable.HashIterate: the callback may release the value it is called with; other calls on the table from inside are not modelled.
- OutputBuffer.Buffer.BufferWrite: the bytes of a call that meets a fatal error are not submitted; `buffer_flush_all`, `buffer_flush_window`, `buffer_putc` and `buffer_putstr` are not modelled.
- InternetChecksum.SwappingCommutesIff: an even number of octets, as section 2(B) of RFC 1071 has it.
- IfName.IfCmp: only the sign of the result, and numbers that saturate at LONG_MAX compare as equal.
- Interfaces.IfCreate: the list holds names; the other fields of an interface, the copy of the name by length and the hooks are not modelled.
- CircularList.ListCutPosition: an entry that is not on the list is modelled only where the source looks for it, on lists of at most one entry; its comment asks the caller for an entry of the list.
- DomainTable.Table.DmrGet: host strings that do not fit the field of 128 octets with their terminating zero.
- DomainTable.Table.DmrDel: the same host strings.
- DomainTable.Table.Clear: freeing is not modelled, but each node's successor is read before the node is unlinked.
- DomainTable.Table.Add: the NULL checks on the table pointer and on the hash function; the bucket mutex.
- `dmr_stat_clear`, `dmr_iter` with other callbacks, `bts_list_delete_all_node`, `bts_hashtable_del_by_key` and the part of `bts_linklist.c` without circular lists.
- CommandMatcher.Matcher.ReadKeywords: at most 31 keywords in a group, the bits that an int shift can mark; recording of completions is left out.
- CommandMatcher.Matcher.MatchKeyword: groups of at most 31 keywords.
- CommandMatcher.Matcher.ElementMatch: groups of at most 31 keywords.
- CommandLines.LineIsCommandIff: executed lines and tokens of one word each; for choices and varargs the answer is that of `CommandMatcher.Matcher.ElementMatch`.
- CommandLines.GroupIsCommandIff: executed lines, one group at the end, keywords whose tokens take one word each.
- CommandLines.CompletesIff: tokens of one word each.
- CommandOrder.KeywordOrderIsIrrelevant: tokens of one word each; a vararg takes the rest of the line and an optional token without a word takes the next keyword. A keyword that another head extends is not repeated on the line; that is sufficient for the order not to matter, not necessary.
- CommandOrder.PrefixFreeOrderIsIrrelevant: tokens of one word each, and groups of at most 31 keywords.
- CommandOrder.ArgcIffNothingOmitted: tokens of one word each.
- `cmd_range_match` and the address matchers are parameters of the command matcher.
- Sockets, pcap, libevent, thread creation, log files and all command handlers.
