# Verified model of the ESP-Hosted co-processor firmware

This project models the parts of the co-processor firmware that are algorithms and protocols
rather than calls into Wi-Fi, Bluetooth or driver libraries, and proves properties of them:

- the fixed-block memory pool whose free list lives inside the free blocks,
- the RPC serial path: TLV messages, fragmentation, reassembly in one shared buffer, and the
  hand-over of that buffer between two tasks,
- the transport engines (SDIO, full-duplex SPI, half-duplex SPI): priority queues behind a counting
  semaphore, transmit credits, throttling, buffer recycling, the frame format and its checksum,
- the parser and printer of IPv4 addresses in the host library,
- two helpers of the packet filter: the port-list parser and the one-entry port cache.

`dafny verify dfyconfig.toml` checks the whole project.

## How the code is modelled

Code that one task executes by itself is written as methods and classes with the fields, loops and
branches of the source. Every such method is proved against a specification function or states its
whole new state, and the properties are proved about that.

Code whose point is that several tasks run at once is written as a transition system: a `State`, an
`Action` for every read, write or library call at which another task can intervene, and a relation
`Next`. The theorems then speak of every run, that is of every interleaving and every outcome of the
library calls, for any number of tasks where the firmware allows any number. The classes
`SpiSlave.Slave`, `SdioThrottle.Throttle`, `SdioCredits.Sender` and `SpiHdFlow.FlowCtrl` are the same code as
one task executes it undisturbed; each of their methods is proved to be a sequence of the steps of the
system beside it, so that the theorems about runs speak about the fields of these classes
(`BlocksInOnePlace`, `Accounts`, `HostKnows`). `Handover.AloneIsAccept` does the same for the reassembly
code of `Reassembly.RxData`.

FreeRTOS queues are sequences of bounded length, semaphores are bounded counters, a blocking call is a
step that is enabled when the call can return, and pointers are word addresses. The machine has 32-bit
words; wrap-around is written out wherever a value can reach it. Memory is one array of words.

| file | content |
|---|---|
| `Bits.dfy`, `Counting.dfy`, `Traces.dfy`, `Wrappers.dfy` | C's bit operators on words, counting blocks in lists, histories, what several modules share |
| `PoolGeometry.dfy`, `Mempool.dfy`, `PoolRuns.dfy` | pool sizes and addresses, the allocator, every run of it |
| `Tlv.dfy`, `Coprocessor.dfy`, `SerialLink.dfy` | TLV messages, fragmentation and buffer ownership on the transmit side, a reply on its whole way |
| `Reassembly.dfy`, `Handover.dfy` | the reassembly buffer, and the two tasks that share it, by single reads and writes |
| `HandoverSafety.dfy`, `Delivery.dfy`, `HandoverProgress.dfy`, `HandoverWitness.dfy` | what holds in every interleaving, exactly when messages are delivered once, that the hand-over ends and where, runs that go wrong |
| `PrioQueues.dfy`, `SpiEngine.dfy`, `SpiSlave.dfy` | priority queues of all transports, the SPI engine |
| `SdioCredits.dfy`, `SdioThrottle.dfy`, `Frame.dfy`, `FrameTheorems.dfy` | the SDIO transport |
| `SpiHdFlow.dfy`, `SpiHdLength.dfy` | flow control and length register of half-duplex SPI |
| `Ipv4Spec.dfy`, `Ipv4.dfy`, `Ipv4Theorems.dfy`, `Ipv4Bases.dfy`, `Ipv4Posix.dfy` | IPv4 text |
| `Ports.dfy`, `PortCache.dfy` | port lists and the port cache |

## Where the code does not do what one would expect

Each of these is stated by a lemma or a contract, with the condition under which the code does meet
the property.

- `serial_read_data` clears `r.valid` before `r.len` and `r.cur_seq_no`. If `recv_task` leaves its wait
  loop in between, the next message can be lost (`HandoverWitness.RaceLosesMessage`) or not
  (`HandoverWitness.LateClearHarmless`), and bytes of two sequences can meet (`HandoverWitness.SequencesMix`). The
  free room is read before the wait loop, so a message can be cut (`HandoverWitness.StaleRoomCuts`).
  `Delivery.DeliveredExactly` says for every stream and every run which single steps decide: messages
  are delivered exactly once if and only if no packet is compared with another sequence number, none is copied
  behind a message that is being cleared, and none is cut.
- When `protocomm_pserial_data_ready` cannot allocate the copy of a request, `r.valid` stays set without a request and
  `recv_task` waits for good: `HandoverProgress.EndsQuietExactly` says that a run ends with everything handed over if
  and only if this never happened, `HandoverProgress.NothingAfterFailure` that nothing is delivered after it.
- `parse_tlv` compares no length with what is left, so a record that reaches behind the message makes the
  loop read on with a length that has wrapped around. `Tlv.OverrunExactly` says for which messages this
  happens; `Tlv.MemoryBehind` that it never yields a request; one byte is enough (`Tlv.OneByteOverruns`).
- `os_memblock_put` takes any address; `Mempool.OsMempool.PutKeepsListExactly` says that the free list survives
  exactly a put of an outstanding block.
- `esp_spi_read` takes a token before it looks at the bus state, so every read while the bus is inactive
  strands one frame (`PrioQueues.StrandedItems`, `SpiSlave.Slave.Read`).
- A startup event that the SDIO driver refuses keeps its credit; after as many of these as the driver's queue
  is long, nothing can be sent (`SdioCredits.StartupFailuresStarve`).
- The SDIO throttling flag and the interrupt are two steps. One task's STOP can overtake the other task's START,
  which leaves the host stopped (`SdioThrottle.OvertakenRun`); `AlternatesExactly` says precisely when.
- The same window exists for `wifi_flow_ctrl` of half-duplex SPI (`SpiHdFlow.LateWriteSticks`,
  `SpiHdFlow.CtrlFollowsThrottling` says when it strikes), and a trigger before `flow_ctrl_task` has created its semaphore is lost (`SpiHdFlow.EarlyTriggerLost`).
- One changed byte of an SDIO frame goes unnoticed in three cases: a lowered high length byte, if what is cut off adds
  up to a multiple of 2^16 (`FrameTheorems.TruncationSlips`), and, when more than the frame was read, a raised high
  length or high offset byte, if the bytes taken in from behind the frame do (`FrameTheorems.ExtensionSlips`).
  `FrameTheorems.OneByteDamage` says that there is no other case.
- `ipv4_addr_aton` computes in one machine word, so the text 4294967296 reads as address 0
  (`Ipv4Theorems.WrapCounterexample`). Compared with `inet_addr()` of POSIX.1-2017, System Interfaces, it also takes
  the digits 8 and 9 after a leading 0, a bare `0x`, empty parts, and anything behind a white space (`Ipv4Posix.TakesMore`);
  `Ipv4Posix.AgreesWithPosixExactly` says for which texts the two agree.
- `os_mempool_init` with no blocks and no buffer stores through NULL, and a pool of no blocks is never sane
  (`Mempool.OsMempool.Init`, `Mempool.OsMempool.IsSane`). `hosted_mempool_create` passes the block count on as 16 bits,
  and compares memory it is given with count times size, which is enough only for sizes that are multiples of 4
  (`PoolGeometry.GivenHoldsBlocks`).
- The half-duplex SPI host fetches nothing any more once more waits than its buffer holds
  (`SpiHdLength.ReadsAllExactly`, `SpiHdLength.OverfullStalls`); one buffer at a time never gets there.
- A port above 9999 in a port list is cut to its first four digits (`Ports.ListReadBack`).
- A hit renews the entry of the port cache, so a wrong answer has no maximal age
  (`PortCache.StaleForAsLongAsPolled`), and port 0 is reported closed without a scan to those who ask for it from the first second on
  (`PortCache.EarlyZeroClosed`); `PortCache.UnnoticedWhileUnchanged` says that with unchanged listeners this is the only
  wrong answer.

## Model

| member | source | states |
|---|---|---|
| PoolGeometry.OsAlignRounds | slave/main/mempool_ll.h:59-64 | OS_ALIGN is rounding up to a multiple of 4 modulo 2^32, and leaves the word only for the last three sizes |
| PoolGeometry.MempoolAlignedRounds | slave/main/mempool.h:59-63 | MEMPOOL_ALIGNED goes to the next multiple of 4, four up from a multiple, modulo 2^32 |
| PoolGeometry.HeapHoldsBlocks | slave/main/mempool.c:37-38 | every one of the n blocks lies in the region requested from the heap, if and only if the request with its four spare bytes fits a 32-bit word |
| PoolGeometry.GivenHoldsBlocks | slave/main/mempool.c:43-48 | memory from the caller that passes the size check holds all blocks at their true size, if and only if count times size fits a word and the size is a multiple of 4 |
| PoolGeometry.BlocksDisjoint | slave/main/mempool_ll.h:228-238 | blocks of different index share no byte and are aligned if the buffer is |
| Mempool.OsMempool.Init | slave/main/mempool_ll.c:69-125 | every error case and which parameter decides it; on success the list in memory threads all blocks in address order, the pool is fresh, and no word but the links has changed |
| Mempool.OsMempool.Create | slave/main/mempool.c:26-93 | which of the heap, the memory given, its size and alignment, the control blocks and the block size make it fail, and nothing is changed then; else a fresh pool on that memory, with the block count cut to 16 bits, and no word but the links has changed |
| Mempool.OsMempool.ClearPool | slave/main/mempool_ll.c:145-182 | all blocks become free, the low-water mark starts again, no word but the links changes |
| Mempool.OsMempool.ChainBlocks | slave/main/mempool_ll.c:108-120 | the chaining loop leaves an acyclic list of exactly the blocks, NULL behind the last, and writes nothing but their links |
| Mempool.OsMempool.MemblockFrom | slave/main/mempool_ll.c:216-241 | true exactly for the start addresses of blocks |
| Mempool.OsMempool.BlockAddresses | slave/main/mempool_ll.c:216-241 | those are the addresses base + k * true block size, 0 <= k < n |
| Mempool.OsMempool.Apart | slave/main/mempool_ll.c:108-120 | two blocks of a pool never overlap and lie in memory |
| Mempool.OsMempool.IsSane | slave/main/mempool_ll.c:200-214 | on any list that ends: true exactly if every listed address is a block |
| Mempool.OsMempool.MemblockGet | slave/main/mempool_ll.c:243-274 | a pop of the free stack with the low-water mark; NULL and no change on an empty pool |
| Mempool.OsMempool.MemblockPut | slave/main/mempool_ll.c:299-338 | in any state of the pool: any address but NULL becomes the head of the list, its first word the link to the old head, the 16-bit count goes up, and no other word changes; for an outstanding block of an intact pool this is a push |
| Mempool.OsMempool.PutKeepsListExactly | slave/main/mempool_ll.c:276-297 | a put leaves a list of one more, all different, blocks of the pool if and only if the address is an outstanding block; a double put makes a circle |
| Mempool.OsMempool.UserStore | slave/main/mempool_ll.c:243-297 | any store inside an outstanding block keeps the list in memory intact |
| Mempool.OsMempool.FreeUntouched | slave/main/mempool_ll.c:243-297 | no word of an outstanding block is the link of a free one |
| Mempool.OsMempool.Alloc | slave/main/mempool.c:115-148 | a get; on request byte j of memory is then 0 if it is one of the nbytes bytes from the block on, and every other byte is as before; the pool stays intact if they lie in the block |
| Mempool.OsMempool.Memset | slave/main/mempool.c:141-142 | the stated bytes of memory are 0 and all others as before |
| Mempool.FourBytes | slave/main/mempool.c:141-142 | the four bytes, lowest first, make the word |
| PoolRuns.RunPartition | slave/main/mempool_ll.c:97-122 | in every state of every run of gets, puts, clears and user writes, free and outstanding blocks partition the pool |
| PoolRuns.NoDoubleHandOut | slave/main/mempool_ll.c:243-297 | between two hand-outs of a block it was put back or the pool was cleared |
| PoolRuns.LowWaterMark | slave/main/mempool_ll.c:260-264 | mp_min_free is exactly the least number of free blocks since init or the last clear |
| PoolRuns.LifoOrder | slave/main/mempool_ll.c:243-297 | blocks put back come out again in reverse order, and then the pool is as before |
| Tlv.ParseTlv | slave/main/protocomm_pserial.c:57-75 | the record at the position, the position behind it, and the remaining length, which wraps around |
| Tlv.HandleRequest | slave/main/protocomm_pserial.c:121-163 | the loop ends; its outcome is that of the message alone, and if it reads behind the message, no request |
| Tlv.MemoryBehind | slave/main/protocomm_pserial.c:57-75 | whatever lies behind the message: it has no influence unless the loop reads behind the message, and then no request comes of it, because the wrapped length is never 0 again |
| Tlv.OverrunExactly | slave/main/protocomm_pserial.c:139-158 | the loop reads behind a message if and only if it is a list of complete, acceptable records followed by one cut short |
| Tlv.OneByteOverruns | slave/main/protocomm_pserial.c:67-73 | a message of one byte is read beyond its end, with an outcome that depends on the memory there |
| Tlv.ParsedExactly | slave/main/protocomm_pserial.c:139-158 | a message is parsed if and only if it is a list of complete records whose meaning is a request |
| Tlv.ComposeTlv | slave/main/protocomm_pserial.c:77-119 | the bytes of the two records, or failure if there is no memory |
| Tlv.RoundTrip | slave/main/protocomm_pserial.c:57-119 | composing and parsing give back name and data if and only if the name has 1 to 14 bytes and the data 1 to 65535 |
| Tlv.WireFormat | slave/main/protocomm_pserial.c:93-111 | byte by byte: tag 1, the length of the name low byte first, the name, tag 2, the length of the data, the data |
| Tlv.OtherTagRejected | slave/main/protocomm_pserial.c:154-156 | a record with a tag other than 1 and 2 rejects the message |
| Tlv.LastDataCounts | slave/main/protocomm_pserial.c:150-153 | of two data records the second counts |
| Tlv.NamesOverlay | slave/main/protocomm_pserial.c:142-149 | a second name that is not longer overlays only the start of the first |
| Tlv.HalfRejected | slave/main/protocomm_pserial.c:160-163 | a message with one record only is rejected |
| Coprocessor.Firmware.ProcessTxPkt | slave/main/esp_hosted_coprocessor.c:369-409 | written or dropped, a packet's buffer is released once, afterwards |
| Coprocessor.WrittenExactly | slave/main/esp_hosted_coprocessor.c:369-409 | a packet is written if and only if the data path is open, a driver is there, and a host that must be woken wakes up; it carries the wake-up mark if and only if the host had to be woken |
| Coprocessor.Firmware.SerialWriteData | slave/main/esp_hosted_coprocessor.c:773-817 | the fragments form a fragmentation of the message, for any length and any fate of each, and the buffer's ownership ends exactly once, behind the last |
| Coprocessor.FragmentsJoin | slave/main/esp_hosted_coprocessor.c:789-797 | joined fragments are the message; all but the last have 1500 bytes and MORE_FRAGMENT, the last has not |
| Coprocessor.SerialPathRoundTrip | slave/main/esp_hosted_coprocessor.c:773-817 | composing, fragmenting, joining and parsing give back endpoint name and payload |
| SerialLink.FragmentArrives | slave/main/sdio_slave_api.c:476-509 | a fragment put into a frame is received with its interface type, payload and sequence number, and MORE_FRAGMENT set exactly if it was, whether or not the packet is marked as a wake-up |
| SerialLink.ReplyArrives | slave/main/esp_hosted_coprocessor.c:773-817 | a reply composed, fragmented and framed parses back from what a receiver joins up to the first frame without MORE_FRAGMENT; the sequence numbers go up by one |
| SerialLink.FragmentsFit | slave/main/esp_hosted_coprocessor.c:787-797 | every fragment fits a frame and is accepted |
| Coprocessor.Firmware.WlanApRx | slave/main/esp_hosted_coprocessor.c:213-248 | the received Wi-Fi buffer is released exactly once in every case |
| Coprocessor.Firmware.WlanStaRx | slave/main/esp_hosted_coprocessor.c:254-367 | the whole log for every route and datapath value: sent to the host and released, given to netif, both with a copy, or released |
| Reassembly.RxData.Arrive | slave/main/esp_hosted_coprocessor.c:490-499 | the free room is taken before the wait |
| Reassembly.RxData.Continue | slave/main/esp_hosted_coprocessor.c:500-523 | the buffer behind the wait loop: new sequence dropped and handed on, or a prefix appended, never beyond the buffer |
| Reassembly.RxData.SerialReadData | slave/main/esp_hosted_coprocessor.c:733-745 | a valid buffer is copied out and emptied, an invalid one untouched |
| Handover.AloneIsAccept | slave/main/esp_hosted_coprocessor.c:501-522 | the single reads and writes behind the wait loop, undisturbed, amount to what RxData.Continue is proved to do |
| HandoverSafety.RunBounded | slave/main/esp_hosted_coprocessor.c:490-522 | in every state of every interleaving of single reads and writes, races included, r.len is at most 8192, no copy leaves the buffer, and the buffer is a concatenation of prefixes of packets in the order they came, although the room was read before the wait |
| HandoverSafety.ReadsAreValid | slave/main/esp_hosted_coprocessor.c:494-521 | in every interleaving pserial_task only reads a valid buffer, and while r.valid is set the bytes are frozen |
| HandoverSafety.RunMatched | slave/main/protocomm_pserial.c:222-303 | in every interleaving a valid buffer has exactly one request: about to be posted, under way, or just read |
| HandoverSafety.NeverStuck | slave/main/protocomm_pserial.c:283-303 | in every state of every run, unless all is delivered, one of the two tasks can go on, by a calm and fitting step |
| HandoverProgress.RunEnds | slave/main/esp_hosted_coprocessor.c:480-523 | every run, failed allocations included, has at most 16 steps for each packet and 6 for each event |
| HandoverProgress.EndsQuietExactly | slave/main/protocomm_pserial.c:235-242 | where neither task can go on, every packet was taken, handed over and read, if and only if no allocation failed |
| HandoverProgress.NothingAfterFailure | slave/main/protocomm_pserial.c:235-242 | after one failed allocation r.valid stays set and nothing is delivered any more |
| HandoverProgress.FallibleInv | slave/main/protocomm_pserial.c:222-255 | also with failed allocations the buffer never overflows; a request and a valid buffer belong together until one fails |
| HandoverSafety.RunOneSequence | slave/main/esp_hosted_coprocessor.c:500-515 | in every calm run all bytes of the buffer are of the sequence r.cur_seq_no |
| Delivery.ExactlyOnce | slave/main/protocomm_pserial.c:222-303 | as long as the steps are clean every message is delivered exactly once, in order, whole; for any stream |
| Delivery.DeliveredExactly | slave/main/esp_hosted_coprocessor.c:480-523 | for every stream of non-empty packets that ends with a finished message and every run at rest: all messages were delivered exactly once, if and only if every step was clean |
| HandoverProgress.EventuallyDelivered | slave/main/protocomm_pserial.c:283-303 | without a failed allocation every run ends within that bound, and then all messages were delivered exactly once if and only if its steps were clean |
| Delivery.CalmDeliversExactly | slave/main/esp_hosted_coprocessor.c:490-515 | for every well-sent stream and every calm run at rest: exactly-once, if and only if every packet that arrived beside a finished message fitted there |
| Delivery.CalmFittingDelivers | slave/main/esp_hosted_coprocessor.c:733-745 | messages of same-sequence fragments of at most 8192 bytes are delivered exactly once in every calm and fitting run, at every moment |
| Delivery.SmallMessagesFit | slave/main/esp_hosted_coprocessor.c:490-515 | if each packet fits beside the message before it, every calm run is fitting |
| HandoverWitness.StaleRoomCuts | slave/main/esp_hosted_coprocessor.c:490-515 | a calm run in which the second of two messages is cut |
| HandoverWitness.RaceLosesMessage | slave/main/esp_hosted_coprocessor.c:738-740 | a run, with the race, in which the second of two messages is lost |
| HandoverWitness.LateClearHarmless | slave/main/esp_hosted_coprocessor.c:738-740 | a run that is not calm and delivers both messages |
| HandoverWitness.SequencesMix | slave/main/esp_hosted_coprocessor.c:738-740 | a run that is not calm in which the buffer holds bytes of two sequences |
| PrioQueues.NoElementUnreachable | slave/main/spi_slave_api.c:854-897 | for any number of producers and consumers, in any interleaving, the "No element" branch is unreachable, the items at or below a scan position cover the consumers there, and no give is refused |
| PrioQueues.InOrder | slave/main/sdio_slave_api.c:592-599 | each queue is first in, first out, nothing lost or doubled |
| PrioQueues.HigherWasEmpty | slave/main/sdio_slave_api.c:592-599 | a consumer that looks at a queue found each queue of higher priority empty earlier in the same scan |
| PrioQueues.ScanAdvances | slave/main/sdio_slave_api.c:592-599 | a scan ends behind at most three receives, the third of which always finds an item |
| PrioQueues.StrandedItems | slave/main/spi_slave_api.c:881-887 | at rest the items left behind are exactly as many as reads gave up after taking the semaphore |
| SpiEngine.ExactlyOnePlace | slave/main/spi_slave_api.c:368-606 | in every reachable state every block of the pool is in exactly one place: pool, transmit queue, one side of one transaction, receive queue, or one task's hands |
| SpiEngine.StepConserves | slave/main/spi_slave_api.c:509-606 | no step loses or doubles a block |
| SpiEngine.RunChained | slave/main/spi_slave_api.c:558-604 | each startup and each completed transaction has one successor, queued, being prepared, or given up for want of a dummy |
| SpiEngine.StaysPrimed | slave/main/spi_slave_api.c:509-539 | transactions queued or being prepared, and failed ones, are as many as startup events |
| SpiEngine.QueuesInOrder | slave/main/spi_slave_api.c:368-606 | in every run each transmit and receive queue is first in, first out: the blocks sent to it are the blocks taken from it and the ones that wait, in order |
| SpiEngine.FlightsInOrder | slave/main/spi_slave_api.c:509-606 | the driver returns the transactions in the order it got them |
| SpiEngine.RunBounded | slave/main/spi_slave_api.c:368-606 | in every run no queue is longer than it was created and the driver holds at most three transactions |
| SpiSlave.Slave.GetNextTxBuffer | slave/main/spi_slave_api.c:368-424 | the oldest frame of the first non-empty queue in the order of priority, taken from its front, else a dummy from the pool, else nothing |
| SpiSlave.Slave.QueueNextTransaction | slave/main/spi_slave_api.c:509-539 | which blocks the new transaction has on either side and what is left in pool and queues, and exactly when it fails or stops at the assert |
| SpiSlave.Slave.PostProcess | slave/main/spi_slave_api.c:541-606 | the oldest transaction out, its successor in; the received block put behind its queue or freed, the transmit block freed; pool, queues and transactions are stated completely |
| SpiSlave.Slave.Write | slave/main/spi_slave_api.c:785-867 | which arguments are refused, with nothing changed; otherwise the top block of the pool is put behind the queue of its interface type, and announced |
| SpiSlave.QueueOfTypes | slave/main/spi_slave_api.c:854-859 | interface type 3 goes to the first queue, 4 to the second, all others to the third |
| SpiSlave.Slave.Read | slave/main/spi_slave_api.c:874-897 | the oldest frame of the first non-empty queue; an inactive bus uses up the token |
| SpiSlave.Slave.StartupEvent | slave/main/spi_slave_api.c:342-347 | the event is put behind the queue of other frames and the first transaction set up; only a missing receive block stops it |
| SpiSlave.Slave.BlocksInOnePlace | slave/main/spi_slave_api.c:368-606 | between and inside the methods each block is in exactly one of pool, transmit queues, transactions, receive queues and the hands of the running code |
| SpiSlave.Slave.TransactionsQueued | slave/main/spi_slave_api.c:509-606 | with all code done there are as many transactions as startup events, less those given up |
| SdioCredits.CreditsConserved | slave/main/sdio_slave_api.c:452-581 | over every interleaving free credits, frames in the driver, credits in hand and credits lost add up to the driver's queue size, and no give meets a full semaphore |
| SdioCredits.FreedOnceOrInFlight | slave/main/sdio_slave_api.c:538-567 | every buffer allocated is in the driver, in one task's hands, or freed, exactly once |
| SdioCredits.Drained | slave/main/sdio_slave_api.c:458-472 | once all is idle every credit but the lost ones is back and every buffer was freed exactly once |
| SdioCredits.StartupFailuresStarve | slave/main/sdio_slave_api.c:310-322 | after as many failed startup events as credits nothing is sent ever again |
| SdioCredits.Sender.Write | slave/main/sdio_slave_api.c:511-581 | new credits, driver queue and freed buffers for both answers of the driver; a sequence of the steps |
| SdioCredits.Sender.Accounts | slave/main/sdio_slave_api.c:452-581 | between the methods credits add up and every buffer is in the driver or was freed once |
| SdioCredits.Sender.TxDone | slave/main/sdio_slave_api.c:452-473 | the oldest frame leaves the driver, its credit returns, its buffer is freed |
| SdioCredits.Sender.StartupEvent | slave/main/sdio_slave_api.c:310-322 | on an error the buffer is freed and the credit is lost |
| SdioThrottle.PercentDecides | slave/main/sdio_slave_api.c:135-138 | the truncated byte-wide percentage decides each threshold as exact arithmetic would |
| SdioThrottle.ThresholdsAreFrames | slave/main/sdio_slave_api.c:123-169 | on a queue of 100 places the host is stopped exactly above the high threshold, if that is not 0, and resumes exactly below the low one |
| SdioThrottle.ZeroDisables | slave/main/sdio_slave_api.c:123-148 | with a high threshold of 0 no run ever raises an interrupt |
| SdioThrottle.QueueBounded | slave/main/sdio_slave_api.c:123-169 | in every run the queue holds between 0 and its capacity |
| SdioThrottle.Throttle.StartIfNeeded | slave/main/sdio_slave_api.c:123-148 | START is raised exactly if throttling is enabled, not on, and the load is above the high threshold |
| SdioThrottle.Throttle.StopIfNeeded | slave/main/sdio_slave_api.c:150-169 | STOP is raised exactly if throttling is on and the load is below the low threshold |
| SdioThrottle.Throttle.HostKnows | slave/main/sdio_slave_api.c:123-169 | between the methods, in any order of checks and frames, the interrupts alternate and the last one is what current_throttling says |
| SdioThrottle.AlternatesExactly | slave/main/sdio_slave_api.c:123-169 | the host sees START, STOP, START, ... if and only if no interrupt overtook an older one |
| SdioThrottle.UndisturbedIsOrderly | slave/main/sdio_slave_api.c:123-169 | which holds if each check runs undisturbed by the other task's decision |
| SdioThrottle.FlagTellsLast | slave/main/sdio_slave_api.c:123-169 | current_throttling then tells which interrupt came last |
| SdioThrottle.Hysteresis | slave/main/sdio_slave_api.c:123-169 | between a START decision and a later STOP more than (high + 1 - low) percent of the queue leave it, and the other way round as many arrive; for any thresholds and interleaving |
| SdioThrottle.OvertakenRun | slave/main/sdio_slave_api.c:123-169 | a run that raises STOP before START and leaves the host stopped |
| Frame.ComputeChecksum | common/transport/esp_hosted_transport.h:54-65 | the sum of the bytes modulo 2^16 |
| Frame.FillFrame | slave/main/sdio_slave_api.c:476-509 | header, checksum and payload in the send buffer, nothing written behind them |
| FrameTheorems.FrameFields | common/esp_hosted_header.h:10-31 | where each field of a built frame lies: types and flags in bytes 0 and 1, then length, offset, checksum and sequence number, low byte first, and two zero bytes |
| Frame.Receive | slave/main/sdio_slave_api.c:642-683 | accepts exactly what the length checks and the checksum allow, clears the checksum field in place, reports power save on for flag bit 2, off for bit 3 without bit 2 |
| FrameTheorems.RoundTrip | slave/main/sdio_slave_api.c:476-509 | every frame with payload that fits the buffer is accepted and yields the same interface type, number, flags, sequence number and payload |
| FrameTheorems.EmptyDropped | slave/main/sdio_slave_api.c:652-657 | a frame without payload is always dropped |
| FrameTheorems.OneByteDamage | slave/main/sdio_slave_api.c:652-683 | one changed byte, anywhere in the frame and however much was read behind it, makes the receiver drop the frame, if and only if it is none of three cases: the high length byte lowered, or the high length or high offset byte raised, with the bytes cut off or taken in summing up to a multiple of 2^16 |
| FrameTheorems.PayloadAndShortFramesSafe | slave/main/sdio_slave_api.c:670-683 | so a changed payload byte is always noticed, and any changed byte of a frame with at most 512 payload bytes behind which less than 512 bytes were read |
| FrameTheorems.DamageNoticed | slave/main/sdio_slave_api.c:670-683 | a changed byte outside the length and offset fields is noticed however much more than the frame was read |
| FrameTheorems.TruncationSlips | slave/main/sdio_slave_api.c:652-683 | a frame whose damaged length is accepted |
| FrameTheorems.ExtensionSlips | slave/main/sdio_slave_api.c:652-683 | a frame of 4 payload bytes whose damaged length is accepted together with 512 bytes read behind it |
| SpiHdFlow.DeliversLatest | slave/main/spi_hd_slave_api.c:263-325 | whenever all is at rest the last command tells wifi_flow_ctrl, if and only if a trigger reached the semaphore or the flag is clear; commands are never more than triggers |
| SpiHdFlow.CtrlFollowsThrottling | slave/main/spi_hd_slave_api.c:297-325 | at rest wifi_flow_ctrl agrees with current_throttling if and only if nothing was written yet, or the other task did not change current_throttling between the last writer's own change and its write |
| SpiHdFlow.SerialNeverOvertaken | slave/main/spi_hd_slave_api.c:283-328 | which never happens if neither task decides while the other is between decision and write |
| SpiHdFlow.FlowCtrl.Trigger | slave/main/spi_hd_slave_api.c:297-303 | both flags and the semaphore after a decision; a sequence of the steps |
| SpiHdFlow.FlowCtrl.HostKnows | slave/main/spi_hd_slave_api.c:263-281 | between the methods, with the semaphore empty, the last command is what current_throttling says, if and only if a trigger reached the semaphore or throttling is off |
| SpiHdFlow.EarlyTriggerLost | slave/main/spi_hd_slave_api.c:110-113 | a run in which the only trigger comes before the semaphore exists |
| SpiHdFlow.LateWriteSticks | slave/main/spi_hd_slave_api.c:297-325 | a run that ends at rest with the host stopped and throttling clear |
| SpiHdFlow.FlowCtrl.StartIfNeeded | slave/main/spi_hd_slave_api.c:283-306 | flag, throttling and semaphore after the check |
| SpiHdFlow.FlowCtrl.StopIfNeeded | slave/main/spi_hd_slave_api.c:308-328 | flag, throttling and semaphore after the check |
| SpiHdFlow.FlowCtrl.SendCommand | slave/main/spi_hd_slave_api.c:268-280 | the command is what the flag says when it is sent |
| SpiHdLength.Slave.CbTxReady | slave/main/spi_hd_slave_api.c:228-249 | the 24-bit length counts on modulo 2^24, the interrupt bits stay, higher bits are dropped; the step of the link |
| SpiHdLength.Slave.CbCmd9Recv | slave/main/spi_hd_slave_api.c:251-261 | the interrupt bits are cleared, the length stays |
| SpiHdLength.Host.Fetch | host/drivers/transport/spi_hd/spi_hd_drv.c:564-594 | the host fetches exactly the outstanding bytes, or nothing if they exceed its buffer |
| SpiHdLength.OutstandingIsBacklog | host/drivers/transport/spi_hd/spi_hd_drv.c:564-565 | in every run, with any number of loads between reads and however often both counters wrap: fetched and outstanding bytes are the loaded ones, modulo 2^24 |
| SpiHdLength.ReadsAllExactly | host/drivers/transport/spi_hd/spi_hd_drv.c:564-594 | while less than 2^24 bytes wait, a read leaves nothing behind if and only if what waits fits the buffer of the host; otherwise it changes nothing |
| SpiHdLength.OverfullStalls | host/drivers/transport/spi_hd/spi_hd_drv.c:574-581 | once more waits than fits the buffer nothing is fetched any more, as long as less than 2^24 bytes wait |
| SpiHdLength.HostFetchesEveryBuffer | host/drivers/transport/spi_hd/spi_hd_drv.c:521-594 | however often both counters wrap, buffers loaded one at a time are each fetched once, with their length, in order |
| Ipv4.AddrAton | host/utils/util.c:36-119 | success and stored value as `Parse` says, in network order |
| Ipv4.CollectNumber | host/utils/util.c:44-76 | base detection and the digit loop |
| Ipv4.Finish | host/utils/util.c:96-118 | range check of the last part and the shifts |
| Ipv4.GetIpaddrFromStr | host/utils/util.c:245-255 | the address in host order |
| Ipv4.AddrNtoa | host/utils/util.c:131-165 | for any buffer length: nothing written beyond it, NULL exactly if text and terminator do not fit, and which characters are there in either case |
| Ipv4.PrintedReadsBack | host/utils/util.c:131-165 | whatever the printer left in a buffer reads back as the address |
| Ipv4Spec.HtonInvolution | host/utils/common.c:61-76 | swapping twice is the identity |
| Ipv4Spec.HtonReverses | host/utils/common.c:61-76 | the masks and shifts reverse the four bytes |
| Ipv4Spec.ConcoctIsPositional | host/utils/util.c:96-118 | bitwise-or of the shifted parts is their positional sum |
| Ipv4Theorems.AtonExact | host/utils/util.c:42-118 | a text is accepted if and only if it is one to four numerals in range, and every reading of it gives the same address |
| Ipv4Theorems.AtonAgreesExactly | host/utils/util.c:42-118 | the address is the positional sum of the numerals if and only if all fit a word or the wrapped ones are out of range too |
| Ipv4Theorems.WrapCounterexample | host/utils/util.c:42-76 | the text 4294967296 gives address 0 |
| Ipv4Bases.DecimalReadsBack | host/utils/util.c:44-76 | every word printed in decimal by division reads back, up to NUL or a white space |
| Ipv4Bases.OctalReadsBack | host/utils/util.c:53-64 | every word printed in octal behind a 0 reads back |
| Ipv4Bases.HexReadsBack | host/utils/util.c:53-75 | every word printed in hexadecimal, in either case, behind 0x or 0X reads back; NUL and six white spaces may follow, any other character but a dot and the digits makes the text refused |
| Ipv4Bases.TwoParts | host/utils/util.c:96-104 | a.b is 8 and 24 bits |
| Ipv4Bases.ThreeParts | host/utils/util.c:106-110 | a.b.c is 8, 8 and 16 bits |
| Ipv4Posix.ReadingUnique | host/utils/util.c:42-76 | a text reads as numerals in at most one way |
| Ipv4Posix.AgreesWithPosixExactly | host/utils/util.c:42-118 | the parser gives what inet_addr() gives if and only if all numerals of the text's reading are POSIX ones that fit a word and nothing stands behind the last, or the parts are refused anyway |
| Ipv4Posix.TakesMore | host/utils/util.c:49-86 | 08, 0x, the empty text, and a 1 followed by a white space and anything or nothing are taken, where inet_addr() refuses them |
| Ipv4Theorems.RoundTrip | host/utils/util.c:131-165 | the text of every address reads back as it, whatever follows the terminator, and fits 16 bytes |
| Ports.PortList.Init | slave/main/lwip_filter.c:86-152 | for every string the table is the first ten entries of the list as read without bounds; an initialised list is untouched, an empty string initialises nothing |
| Ports.PortList.ReadPorts | slave/main/lwip_filter.c:108-126 | the loop over the characters, with every write to buffer and table in bounds |
| Ports.PortList.PushDigit | slave/main/lwip_filter.c:114-118 | only four digits of a number are kept |
| Ports.ListReadBack | slave/main/lwip_filter.c:108-132 | a comma-joined list of decimal numbers comes back as its first ten numbers cut to four digits, so as written if and only if none of those is above 9999 |
| Ports.NoiseIgnored | slave/main/lwip_filter.c:113-126 | characters other than digits and commas make no difference, wherever they stand |
| Ports.EmptyFieldSkipped | slave/main/lwip_filter.c:119-126 | a comma without digits before it makes no entry |
| PortCache.Cache.IsLocalPortOpen | slave/main/lwip_filter.c:279-312 | answer and new entry of one call |
| PortCache.Scan | slave/main/lwip_filter.c:295-301 | the walk finds the port if and only if it has a listener |
| PortCache.AnswersLatestScan | slave/main/lwip_filter.c:314-347 | in every run each answer is that of the latest scan, which was for the same port, with every gap since under the window |
| PortCache.ScansUnlessFollowing | slave/main/lwip_filter.c:279-312 | a call is answered without a scan if and only if it closely follows one for the same port, or is the first, for port 0 in the first second |
| PortCache.UnscannedExactly | slave/main/lwip_filter.c:314-347 | there was no scan yet if and only if all calls were for port 0, the first in the first second and each closely after the one before |
| PortCache.UnnoticedWhileUnchanged | slave/main/lwip_filter.c:279-347 | with unchanged listeners the cached answer is the uncached one, if and only if the calls are not such ones or port 0 has no listener |
| PortCache.EarlyZeroClosed | slave/main/lwip_filter.c:283-288 | port 0 with a listener, asked for in the first second, is reported closed |
| PortCache.OpenedBetween | slave/main/lwip_filter.c:279-312 | a port that opened since it was last asked for is noticed, unless that was less than 1000 ago; a clock that ran backwards does no harm |
| PortCache.StaleForAsLongAsPolled | slave/main/lwip_filter.c:283-288 | a port polled just inside the window stays closed for any number of polls after it opened |

## Left out

- Mempool.OsMempool.Create: it is stated for heap requests that fit a word (`PoolGeometry.HeapHoldsBlocks` says that others are too small) and for memory from the caller that really holds the blocks, which the code does not check (`PoolGeometry.GivenHoldsBlocks`).
- Mempool.OsMempool.MemblockPut: the address must be aligned and in memory, or the store itself fails.
- Mempool.OsMempool.Alloc: clearing must not leave the memory of the machine.
- Tlv.HandleRequest: reading where there is no memory ends in `Overrun`; less than the whole address space is readable. Protobuf decoding of the payload is not part of this model.
- Coprocessor.Firmware.SerialWriteData: the bypass build (`BYPASS_TX_PRIORITY_Q` 1) is modelled, in which sending cannot fail; the queued build with its three host queues is not.
- Delivery.DeliveredExactly: allocations succeed (`HandoverProgress` says what happens otherwise); packets carry something, as the SDIO and full-duplex SPI receivers demand; `serial_read_data`'s copy is one step, because `recv_task` does not write to a valid buffer (`HandoverSafety.ReadsAreValid`).
- Reassembly and fragmentation serve opposite directions: the writer counts a sequence number up for every fragment, the reader takes a changed number for a new message, so they are not inverses of each other.
- SpiEngine.ExactlyOnePlace: the pool of transaction records is left out; nothing is claimed about the pool never running empty, nor about the data-ready line.
- SpiSlave.Slave.Write: the frame contents are left out (the frame format is that of `Frame`), and a full queue is waited for.
- SdioThrottle.Hysteresis: thresholds stay as they are during the run.
- SdioCredits.CreditsConserved: one driver life; reset and deinit tasks are left out.
- Frame.FillFrame: the debug packet number is compiled out; a payload longer than the buffer is the caller's fault.
- SpiHdLength.HostFetchesEveryBuffer: the slave loads a buffer only after the host fetched the one before, as the peripheral driver does (without that see `SpiHdLength.OutstandingIsBacklog`); the reset of the slave's count at a wake-up is left out.
- Credits of half-duplex SPI, whose write failures do not give the semaphore back.
- Ipv4.AddrAton: `u_long` has 32 bits, as on the target.
- PortCache.Cache.IsLocalPortOpen: the listener list is a sequence that does not change during a scan, which the code protects.
- Routing decisions of the packet filter, extended pools, pool poisoning, statistics, BT, Wi-Fi and protobuf commands.
