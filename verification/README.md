# Hermes in Dafny

Hermes is a small C library for message servers. This project models its four
parts and proves what they are for:

- **Thread pool** (`src/tpool/tpool.c`). `PoolQueue` has the shared record: the code
  between two lock, wait and unlock points, as a function on the abstract record and
  as a method on the linked queue. `PoolMachine` interleaves any number of callers and
  workers, with sleeping threads, signals, broadcasts, spurious wakeups and joins, and
  proves the invariants of every reachable state and the laws of every run.
  `PoolDrain` proves that no reachable state is stuck, that the threads of a pool always
  come to rest, that closing the pool ends, and exactly when no caller is left inside the
  pool when it is freed.
- **MD5** (`src/md5/md5.c`, `src/include/md5_loc.h`). `Md5Spec` is RFC 1321, section by
  section. `Md5Block` proves the unrolled rounds equal to its table-driven steps,
  `Md5Stream` the buffering, counting and padding, for every way of cutting the input.
  `Md5Bits` proves the masks and shifts outside the rounds equal to arithmetic, `Md5Vectors`
  evaluates the digest of "abc", `Md5Hex` has the hexadecimal conversions.
- **Messages** (`src/hms`, `src/include/hms_list.h`, `src/tests/copy_*.c`). `HmsText` has
  the C library calls as functions, `HmsHeaders` messages as values, `HmsMessage` the
  message object, `HmsScanner` the search for the end of a header, `HmsParser` the
  parser, `HmsRoundTrip` the law between printing and parsing, `HmsEndpoint` sending and
  the receiving loop, `CopyFile` the COPY client and server on top of it. `HmsList` is
  the intrusive list on the heap, `HmsHeaderList` the header lists made of it, of which a
  message object holds two. `HmsExamples` has the message and the session of README.md.
- **Hash table** (`src/hashtab/hashtable.c`). `HashChain` has one sorted chain, `HashTable`
  the table as a value and its refinement of a map, `HashHeap` the nodes and slots on
  the heap, `HashIterate` map, statistics and the iterator.

Conventions. A byte is a `char` in the message modules and a number below 256 in the
MD5 modules; a 32-bit word is a number below 2^32 whose additions wrap explicitly. The
bitwise operations of the rounds go through `bv32`; those that count bits and blocks are
written as arithmetic, which `Md5Bits` justifies on `bv32`. Methods follow the C code,
loops included; each is proved against a function on values, and the laws are lemmas about
those functions. Reads and sends may be short in any pattern, which an arbitrary function
chooses. A failing assertion of the source ends the process; where it can fail, the model
has an outcome `Aborted`. `hide` statements only keep proofs fast.

## Where the code falls short

- A producer that waits for room is not woken when the pool is closed
  (`PoolMachine.ClosingLeavesProducerAsleep`); `NoLostWakeup` states exactly when. It is
  woken later, by a worker or by the broadcast behind shutdown, but `tpool_destroy` does
  not wait for it and frees the pool behind the joins, which can happen before the
  producer has the lock again (`PoolDrain.FreedUnderAProducer`). No caller is left inside
  a freed pool, however threads are scheduled, if and only if the call that closes the
  pool is the only one in progress when it takes the lock (`PoolDrain.SafeToDestroy`). A
  freed pool takes no more steps in the model, so no theorem speaks of what such a caller
  does then.
- The repository's README says that a line with just a period ends a header. The code
  ends it at the first line that *ends* in a period, perhaps followed by blanks
  (`HmsScanner.ReadHeader`), so a header value that ends in a period truncates the
  message (`HmsRoundTrip.DottedValueIsCut`). `HmsRoundTrip.RoundTrip` states exactly when
  printing and parsing undo each other.
- The final assertion of `hms_msg_print_header` fails for a message without a verb, and
  only then (`HmsMessage.HmsMsg.PrintHeader`).
- `Content-Length` can be handled as an ordinary header, which can make later assertions
  fail (`HmsHeaders.LyingLengthAborts`). `HmsHeaders.NeverAborts` states exactly for which
  messages later calls can fail, `HmsHeaders.OpKeepsSafety` exactly which calls lead there.
  A length of 0 on a message without a body does not, although the message is then not
  coupled (`HmsHeaders.OpKeepsCoupling`).
- `__send_chunk` and the client report success even if a send has failed and the chunk is
  incomplete (`CopyFile.SendChunk`, `CopyFile.SendFile`), and `hms_connector_send_msg`
  reports an error for a message without a body although it has sent it
  (`HmsEndpoint.SendMsg`).
- Copying an empty file sends nothing, so a destination that does not exist is not
  created (`CopyFile.CopiedIs`, `CopyFile.CopyEndToEnd`).
- The copy into the MD5 buffer is in bounds exactly when a 32-bit sum does not wrap
  (`Md5Stream.TopUpFits`, for a sequence of calls `Md5Stream.ChunksFitExactly`), and
  `md5_sig_to_string` leaves out the terminating NUL for even buffer lengths up to 32
  (`Md5Hex.SigToString`).

## Model

| member | source | states |
|---|---|---|
| PoolQueue.TPool.constructor | src/tpool/tpool.c:25-49 | A new pool has an empty queue and both flags clear. |
| PoolQueue.AddIs | src/tpool/tpool.c:79-128 | A call of tpool_add_work is accepted exactly if the pool is open and has room; it waits exactly if the pool is open and full, unless it has just come to a pool that does not block. |
| PoolQueue.WorkerIs | src/tpool/tpool.c:214-248 | A worker exits exactly at shutdown, otherwise takes the oldest item or waits; when it wakes producers and the closer, exactly. |
| PoolQueue.DestroyIs | src/tpool/tpool.c:147-168 | The first call closes the pool and goes on to shutdown in the same section, unless it is to finish a queue that is not empty; later calls do nothing. |
| PoolQueue.TPool.AddWork | src/tpool/tpool.c:79-133 | The critical sections of tpool_add_work on the linked queue: refused, waiting or appended at the tail, with a broadcast exactly when the queue was empty. |
| PoolQueue.TPool.Worker | src/tpool/tpool.c:206-255 | The critical sections of a worker: wait, exit, or take the head, with a broadcast exactly when the queue stops being full and a signal exactly when it becomes empty. |
| PoolQueue.TPool.Destroy | src/tpool/tpool.c:143-168 | The first critical section of tpool_destroy: only the first caller closes the pool. |
| PoolQueue.TPool.DestroyResume | src/tpool/tpool.c:158-165 | The drain loop waits exactly while the queue is not empty, then sets shutdown. |
| PoolMachine.RunKeepsInv | src/tpool/tpool.c:71-262 | Every run keeps the invariant on the queue bound, the closing thread, the flags and the sleeping threads. |
| PoolMachine.CloserInvStep | src/tpool/tpool.c:136-193 | At most one thread closes the pool; its progress, the flags, the exited workers and the empty queue after a finishing drain agree in every step. |
| PoolMachine.SleepInvStep | src/tpool/tpool.c:91-175 | What holds whenever a thread sleeps on one of the three condition variables is kept by every step. |
| PoolMachine.NoLostWakeup | src/tpool/tpool.c:91-128 | In every reachable state an unsignalled sleeper would go back to sleep or a broadcast for it is still to come; a producer is the exception exactly between closing and shutdown; at most one thread waits for the drain. |
| PoolMachine.ClosingLeavesProducerAsleep | src/tpool/tpool.c:153-163 | A reachable state in which that exception occurs. |
| PoolMachine.AddStepIs | src/tpool/tpool.c:79-133 | In every run a call returns accepted exactly if the pool is open and has room, refused exactly if it is closed, or full and not blocking; otherwise it waits. |
| PoolMachine.Fifo | src/tpool/tpool.c:118-128 | Over every run, the accepted items are, in order, the started ones followed by the queue. |
| PoolMachine.StartedOnceFinishedOnce | src/tpool/tpool.c:231-259 | Over every run, started items are finished or in the hands of a worker, each exactly once. |
| PoolMachine.ClosedAcceptsNothing | src/tpool/tpool.c:100-106 | After queue_closed nothing is accepted, over every run. |
| PoolMachine.DestroyFinishesEverything | src/tpool/tpool.c:155-190 | When tpool_destroy(pool, 1) has joined, every accepted item was executed exactly once, started in order of acceptance, and the final free loop is vacuous. |
| PoolDrain.NeverStuck | src/tpool/tpool.c:91-175 | While the pool exists and a call is in progress or work is queued, some thread can take a step of its own. |
| PoolDrain.ThreadsComeToRest | src/tpool/tpool.c:71-262 | Sparse broadcasts and one signal strand nobody: from every reachable state, open or closed, the threads take a bounded number of steps of their own; none is left exactly if the pool is freed, or open with an empty queue, every call returned and every worker waiting. |
| PoolDrain.OwnStepLowersBound | src/tpool/tpool.c:71-262 | Every step other than a new call or a spurious wakeup lowers that bound. |
| PoolDrain.RestFinishesEverything | src/tpool/tpool.c:114-133 | When an open pool is at rest, every accepted item has been executed exactly once, started in order of acceptance. |
| PoolDrain.RestSchedule | src/tpool/tpool.c:71-262 | From every state a schedule leads to where no step is left. |
| PoolDrain.OwnStepDecreases | src/tpool/tpool.c:157-182 | After closing, every step other than a new call or a spurious wakeup decreases the measure. |
| PoolDrain.DrainCompletes | src/tpool/tpool.c:157-192 | Every schedule from a closed pool without new calls and spurious wakeups has bounded length; one that cannot be continued ends with all workers joined, the pool freed and nobody asleep on it, and with every caller returned if no other call was in progress. |
| PoolDrain.DelayCaller | src/tpool/tpool.c:157-192 | While one other caller gets no turn, closer and workers go on until the pool is freed. |
| PoolDrain.ClosedPoolIsLeft | src/tpool/tpool.c:157-192 | From a closed pool on, every schedule without new calls lets all calls return before the pool is freed if and only if no other call is in progress. |
| PoolDrain.SafeToDestroy | src/tpool/tpool.c:136-192 | The same, for the moment at which tpool_destroy takes the lock of an open pool. |
| PoolDrain.FreedUnderAProducer | src/tpool/tpool.c:183-191 | A reachable state in which tpool_destroy(pool, 1) has freed the pool and a woken producer is still about to take its lock. |
| PoolDrain.DrainSchedule | src/tpool/tpool.c:157-192 | Such a schedule exists from every closed state and ends with the pool freed. |
| Md5Vectors.BytesOfWord | src/include/md5_loc.h:84-92 | Words are read from bytes and written to bytes in the same order, low-order byte first. |
| Md5Vectors.StartValue | src/md5/md5.c:280-290 | The start value is the sixteen bytes that section 3.3 of RFC 1321 lists. |
| Md5Vectors.WordsOfBlock | src/md5/md5.c:127-143 | The sixteen words of a block, as bytes, are the block in its order. |
| Md5Vectors.WordOrder | src/md5/md5.c:151-203 | Each line of rounds 2 to 4 takes the word that the source names there. |
| Md5Vectors.AddedByBlock | src/md5/md5.c:205-209 | A block adds the outcome of its 64 steps to the registers, modulo 2^32. |
| Md5Vectors.AbcDigest | src/md5/md5.c:469-482 | The digest of "abc" is 900150983cd24fb0d6963f7d28e17f72, as in appendix A.5 of RFC 1321. |
| Md5Block.FFIsF | src/include/md5_loc.h:62-63 | The shortened FF is F of RFC 1321. |
| Md5Block.FGIsG | src/include/md5_loc.h:64 | FF with rotated arguments is G of RFC 1321. |
| Md5Block.CyclicIsRotate | src/include/md5_loc.h:73 | The two shifts are a rotation for every amount in use. |
| Md5Block.CodeValueIsStep | src/include/md5_loc.h:84-105 | The assignments of OP1 and OP234 are one step of section 3.4 of RFC 1321. |
| Md5Block.FourSteps | src/md5/md5.c:134-137 | Four lines of the code are four steps and bring the registers back into place. |
| Md5Block.Round1 | src/md5/md5.c:133-149 | Round 1 is steps 1 to 16 and loads the little-endian words of the block. |
| Md5Block.Round2 | src/md5/md5.c:151-167 | Round 2 is steps 17 to 32. |
| Md5Block.Round3 | src/md5/md5.c:169-185 | Round 3 is steps 33 to 48. |
| Md5Block.Round4 | src/md5/md5.c:187-203 | Round 4 is steps 49 to 64. |
| Md5Block.ProcessOneBlock | src/md5/md5.c:117-210 | One pass of the loop is the compression of RFC 1321. |
| Md5Spec.BlocksAppend | src/md5/md5.c:113-216 | Compressing whole blocks distributes over concatenation. |
| Md5Stream.Md5.constructor | src/md5/md5.c:280-290 | After md5_init nothing has been consumed. |
| Md5Stream.Md5.CountBytes | src/md5/md5.c:105-111 | The two-word increment is addition modulo 2^64. |
| Md5Stream.Md5.ProcessBlock | src/md5/md5.c:83-217 | process_block folds the compression over the blocks and counts their bytes modulo 2^64. |
| Md5Stream.TopUpFits | src/md5/md5.c:327-335 | The copy into the buffer is in bounds if and only if the 32-bit sum does not wrap. |
| Md5Stream.Md5.Fill | src/md5/md5.c:321-350 | Topping up the buffer loses and reorders no byte, and leaves it empty if input is left. |
| Md5Stream.Md5.Absorb | src/md5/md5.c:352-363 | Whole blocks and the rest are consumed after what is already in the state. |
| Md5Stream.Md5.Process | src/md5/md5.c:315-364 | md5_process appends its bytes to the input consumed, whatever the buffer holds, and leaves the stated number of bytes in it. |
| Md5Stream.PadIsZeros | src/md5/md5.c:411-414 | The padding computed from the buffer length is the one of section 3.1 of RFC 1321. |
| Md5Bits.LowLengthIs | src/md5/md5.c:433 | The mask and the shift that give the low word of the length, as arithmetic. |
| Md5Bits.HighLengthIs | src/md5/md5.c:438-439 | The shifts, the mask and the bitwise or that give the high word, as arithmetic. |
| Md5Bits.BlockMask | src/md5/md5.c:339-345 | The mask of a block and its complement are the remainder and the whole blocks of a length. |
| Md5Stream.BitLengthWords | src/md5/md5.c:433-439 | The two words are the length in bits modulo 2^64. |
| Md5Stream.BitLengthOfCode | src/md5/md5.c:433-439 | So are the words that the code masks and shifts together, on every pair of counter words. |
| Md5Stream.NextBufLenIs | src/md5/md5.c:321-363 | The number of bytes that md5_process leaves in its buffer. |
| Md5Stream.Md5.PadBuffer | src/md5/md5.c:405-427 | The padded buffer is 8 bytes short of one or two blocks and holds the pending bytes, 0x80 and zeros. |
| Md5Stream.Md5.PutLength | src/md5/md5.c:429-441 | The last 8 bytes are the length in bits, low-order byte first (section 3.2 of RFC 1321). |
| Md5Stream.Md5.Finish | src/md5/md5.c:385-446 | The signature is the digest of everything consumed. |
| Md5Stream.Md5Buffer | src/md5/md5.c:469-482 | md5_buffer computes the digest of RFC 1321. |
| Md5Stream.ChunksFitExactly | src/md5/md5.c:327-335 | Over a sequence of calls, no sum wraps if and only if every copy stays inside the buffer. |
| Md5Stream.Md5Chunks | src/md5/md5.c:295-301 | For every way of cutting the input in which no sum wraps, init, process on each piece and finish give the digest of the whole. |
| Md5Hex.HexByteIs | src/md5/md5.c:517-524 | Each byte is two digits, high half first, in '0' to '9' and 'a' to 'f'. |
| Md5Hex.SigToString | src/md5/md5.c:505-530 | Writes as many whole bytes as fit; no terminating NUL exactly for even buffer lengths up to 32. |
| Md5Hex.SigFromString | src/md5/md5.c:551-567 | Yields the signature whose hexadecimal form is the given one. |
| Md5Hex.HexInjective | src/md5/md5.c:505-567 | Signatures with the same hexadecimal form are equal, so the conversions undo each other. |
| HmsList.ListHead.constructor | src/include/hms_list.h:34-36 | A list head without entries. |
| HmsList.InsertBetween | src/include/hms_list.h:44-52 | Inserts between two neighbours; next and prev stay inverse around the ring. |
| HmsList.Add | src/include/hms_list.h:62-65 | Prepends. |
| HmsList.AddTail | src/include/hms_list.h:75-78 | Appends. |
| HmsList.Del | src/include/hms_list.h:87-103 | Removes exactly the entry and clears its pointers. |
| HmsList.IsEmpty | src/include/hms_list.h:142-145 | True exactly for a list without entries. |
| HmsList.Splice | src/include/hms_list.h:147-170 | Two disjoint lists are concatenated. |
| HmsList.Nth | src/hms/hms_msg.c:251-256 | The indexed walk reaches the entry with that index. |
| HmsList.DeleteAll | src/hms/hms_msg.c:158-166 | The safe traversal deletes every entry once, in order, and the count agrees. |
| HmsHeaderList.HeaderList.constructor | src/hms/hms_msg.c:31-55 | A new header list is empty. |
| HmsHeaderList.HeaderList.Append | src/hms/hms_msg.c:225-239 | The node goes to the tail of the ring, and its value behind the others. |
| HmsHeaderList.HeaderList.Get | src/hms/hms_msg.c:241-261 | The indexed walk over the ring yields the value with that index, or the error return. |
| HmsHeaderList.HeaderList.Find | src/hms/hms_msg.c:324-347 | The walk over the ring yields the first match. |
| HmsHeaderList.HeaderList.DelIndex | src/hms/hms_msg.c:264-288 | The safe walk unlinks exactly the node with that index. |
| HmsHeaderList.HeaderList.DelFirst | src/hms/hms_msg.c:349-368 | The safe walk unlinks exactly the first matching node, if there is one. |
| HmsHeaderList.HeaderList.Destroy | src/hms/hms_msg.c:156-178 | Every node is unlinked and the final assertion on the counter holds. |
| HmsText.AtoiDecimal | src/hms/hms_parser.c:161 | Reading a number undoes printing it, for every non-negative int. |
| HmsText.NumeralReads | src/hms/hms_parser.c:161 | A number is read behind blanks and a sign, up to the first character that is no digit. |
| HmsText.NumeralOfNothing | src/hms/hms_parser.c:161 | Text without a digit in front reads as zero. |
| HmsText.AtoiIs | src/hms/hms_msg.c:391 | A number within int is itself; beyond that its low 32 bits count, and beyond long the value is -1 or 0. |
| HmsText.SameKeyIs | src/hms/hms_msg.c:335 | Two keys are the same exactly if they have the same characters, up to the case of letters. |
| HmsText.TrimIs | src/hms/hms_parser.c:172-178 | What is cut off at both ends is white space, and what is left neither begins nor ends with it. |
| HmsText.TrimAround | src/hms/hms_parser.c:172-178 | White space around a trimmed text makes no difference. |
| HmsText.TokensAre | src/hms/hms_parser.c:128-145 | However a text is made of tokens and gaps of separators, one or many, exactly these tokens are found, in order. |
| HmsText.TokensPart | src/hms/hms_parser.c:128-145 | Every text is made of its tokens and such gaps. |
| HmsHeaders.DelNamedRefines | src/hms/hms_msg.c:349-368 | Deleting the first match removes the key, ignoring case, and nothing else. |
| HmsHeaders.AddNamedRefines | src/hms/hms_msg.c:302-322 | The new value wins and moves to the tail; other keys keep their values; keys stay distinct ignoring case. |
| HmsHeaders.DelNamedIsOthers | src/hms/hms_msg.c:349-368 | Deleting a key leaves exactly the headers with other keys, in their order. |
| HmsHeaders.StoreIgnoresCase | src/hms/hms_msg.c:302-368 | What is added under one spelling of a key is found, replaced and deleted under any other that differs in the case of letters, and only under those. |
| HmsHeaders.DelBodyKeepsCoupling | src/hms/hms_msg.c:484-516 | Deleting the body removes Content-Length with it. |
| HmsHeaders.SetBodyKeepsCoupling | src/hms/hms_msg.c:434-482 | Setting a body re-establishes its Content-Length. |
| HmsHeaders.DelBodyIs | src/hms/hms_msg.c:484-516 | Deleting a body removes it, Content-Length and Content-Checksum, and leaves verb, unnamed headers and all other named headers as they are, in order. |
| HmsHeaders.SetBodyIs | src/hms/hms_msg.c:434-482 | Setting a body replaces the old one with its checksum and moves Content-Length to the end; everything else stays as it is. |
| HmsHeaders.GettersAre | src/hms/hms_msg.c:382-432 | The getters return the body and its size. |
| HmsHeaders.AssertionsAre | src/hms/hms_msg.c:382-516 | Exactly when each operation on a body ends the process. |
| HmsHeaders.OpKeepsCoupling | src/hms/hms_msg.c:302-516 | Exactly when a public operation keeps body, content_len and Content-Length in agreement. |
| HmsHeaders.SafeIsGettersPass | src/hms/hms_msg.c:382-432 | For consistent body and content_len: Content-Length tells the truth, or is absent without a body, if and only if neither getter's assertion fires. |
| HmsHeaders.OpKeepsSafety | src/hms/hms_msg.c:302-516 | On such a message no assertion fires in any operation, and it stays so unless the operation is a direct change that makes Content-Length lie. |
| HmsHeaders.NeverAborts | src/hms/hms_msg.c:382-516 | No sequence of operations that leave Content-Length alone makes an assertion fire if and only if the message is such a one. |
| HmsHeaders.BuiltMessages | src/hms/hms_msg.c:31-516 | That equivalence holds for every message built from an empty one; one built without direct changes of Content-Length is coupled. |
| HmsHeaders.LyingLengthAborts | src/hms/hms_msg.c:302-403 | A direct Content-Length of 5 makes the next getter end the process; one of 0 does not. |
| HmsHeaders.OpsNeverAbort | src/hms/hms_msg.c:382-516 | No body assertion fires under any sequence of public operations that leaves Content-Length to the body functions. |
| HmsMessage.HmsMsg.constructor | src/hms/hms_msg.c:31-55 | A new message is empty. |
| HmsMessage.HmsMsg.GetHeaderSize | src/hms/hms_msg.c:57-90 | The number of bytes printed, or zero without a verb. |
| HmsMessage.HmsMsg.PrintHeader | src/hms/hms_msg.c:92-140 | Exactly the header text is written and the buffer behind it is untouched; the final assertion holds if and only if there is a verb. |
| HmsMessage.HmsMsg.SetVerb | src/hms/hms_msg.c:189-205 | Replaces the verb. |
| HmsMessage.HmsMsg.AddHeader | src/hms/hms_msg.c:225-239 | Appends an unnamed header to the ring and the value. |
| HmsMessage.HmsMsg.GetHeader | src/hms/hms_msg.c:241-261 | The header with that index, found on the ring, or the error return out of bounds. |
| HmsMessage.HmsMsg.DelHeader | src/hms/hms_msg.c:264-288 | Removes exactly the header with that index from the ring, or changes nothing. |
| HmsMessage.HmsMsg.AddNamedHeader | src/hms/hms_msg.c:302-322 | Deleting on the ring and appending is the map operation. |
| HmsMessage.HmsMsg.GetNamedHeader | src/hms/hms_msg.c:324-347 | The value of the first match, ignoring case. |
| HmsMessage.HmsMsg.DelNamedHeader | src/hms/hms_msg.c:349-368 | Removes the first match from the ring. |
| HmsMessage.HmsMsg.Destroy | src/hms/hms_msg.c:142-184 | Every node of both rings is unlinked and both final assertions hold. |
| HmsMessage.HmsMsg.GetBodySize | src/hms/hms_msg.c:382-403 | The body size, or the assertion that fires. |
| HmsMessage.HmsMsg.GetBody | src/hms/hms_msg.c:405-432 | The body, or the assertion that fires. |
| HmsMessage.HmsMsg.SetBody | src/hms/hms_msg.c:434-482 | The new message, or the assertion that fires. |
| HmsMessage.HmsMsg.DelBody | src/hms/hms_msg.c:484-516 | The new message, or the assertion that fires. |
| HmsMessage.Perform | src/hms/hms_msg.c:189-516 | Each public operation on a message object is the operation on its value. |
| HmsMessage.PerformAll | src/hms/hms_msg.c:189-516 | Operations that leave Content-Length to the body functions never end the process, and the object stays coupled. |
| HmsScanner.ReadHeader | src/hms/hms_parser.c:62-93 | Returns n exactly if n is within the buffer and the shortest prefix that ends in a dot, blanks and a line feed; then n bytes are read and the buffer holds the text in front of the last dot with carriage returns as blanks; otherwise -1. |
| HmsScanner.HeaderAtUnique | src/hms/hms_parser.c:71-81 | That prefix is unique. |
| HmsScanner.EndsIs | src/hms/hms_parser.c:71-80 | A header ends behind a dot, spaces or carriage returns, and a line feed, in character codes. |
| HmsScanner.HeaderTextIs | src/hms/hms_parser.c:74-88 | Its text is what is in front of the last dot, with spaces for carriage returns, up to a zero byte. |
| HmsParser.Strip | src/hms/hms_parser.c:172-178 | Trims white space at both ends. |
| HmsParser.ParseNamedHeader | src/hms/hms_parser.c:150-170 | Splits at the first colon, trims, adds the header and notes a body length; an error without a colon or with length zero. |
| HmsParser.NamedLineIs | src/hms/hms_parser.c:150-178 | Key and value are what is around the first colon; white space around either makes no difference. |
| HmsParser.ParseVerbLine | src/hms/hms_parser.c:123-148 | First token is the verb, the others are appended as unnamed headers, in order; an error without a token. |
| HmsParser.ParseHeader | src/hms/hms_parser.c:95-121 | The verb line, then every other line as a named header, until one is in error. |
| HmsParser.HeaderTextRejected | src/hms/hms_parser.c:95-170 | A header is rejected exactly if its first line has no word, or another line has no colon or announces a length of 0. |
| HmsParser.ReadBody | src/hms/hms_parser.c:180-230 | For every pattern of short reads the body is the next bytes of the stream, or the read fails because the stream ends. |
| HmsParser.ParseMessage | src/hms/hms_parser.c:29-57 | The whole parse on a stream yields the message that the functions describe and leaves the bytes behind it. |
| HmsParser.ParseFails | src/hms/hms_parser.c:29-57 | There is no message exactly if there is no header within the limit, it is empty or rejected, or it announces a negative length or more bytes than follow. |
| HmsParser.ParsedIsCoupled | src/hms/hms_parser.c:150-223 | Whatever the stream holds, a parsed message has a body exactly if it has a Content-Length, and they agree. |
| HmsRoundTrip.HeaderBack | src/hms/hms_parser.c:95-170 | Tokenising the printed header gives back verb, unnamed and named headers and the body length. |
| HmsRoundTrip.WholeHeader | src/hms/hms_parser.c:68-91 | Without an early dot the scanner takes exactly the printed header. |
| HmsRoundTrip.EarlyDotEnds | src/hms/hms_parser.c:76-78 | With one it stops inside the header. |
| HmsRoundTrip.ParseAccounts | src/hms/hms_parser.c:29-57 | A successful parse accounts for every byte of the stream. |
| HmsRoundTrip.RoundTrip | src/hms/hms_parser.c:29-230 | For every printable message (a verb; words, keys and values without separators or outer blanks; body coupled), suffix and limit: parsing the printed message and body gives the message back, Content-Length moved last, and leaves the suffix unread, if and only if no header line ends in a dot and the header fits. |
| HmsRoundTrip.DottedValueIsCut | src/hms/hms_parser.c:76-91 | A message with the header value "v." arrives with the value "v", and the rest of its header is left unread in front of what follows. |
| HmsRoundTrip.CanonicalFixed | src/hms/hms_msg.c:456-465 | Messages with Content-Length already last are fixed points. |
| HmsEndpoint.SendAll | src/hms/hermes.c:211-229 | For every pattern of partial sends everything is sent, or a send has failed behind a proper prefix. |
| HmsEndpoint.SendMsg | src/hms/hermes.c:326-361 | Header and body go out in this order. On a socket that has not failed, the status is zero exactly if no send failed and, for a connector, there is a body, and the message is complete exactly if no send failed. |
| HmsEndpoint.SendMsgs | src/hms/hermes.c:326-361 | Messages sent back to back leave whole and in order up to the first failed send; on a connection that stays down a proper prefix has left. |
| HmsEndpoint.HandleEndpoint | src/hms/hermes.c:168-206 | The loop receives the messages that successive parses of the stream yield; each invalid one is dropped, each accepted one goes to the handler and each other one to the default handler, in the world its predecessor left, until a status is not zero or the stream does not parse. |
| HmsEndpoint.DefaultStatusIs | src/hms/hermes.c:491-529 | The default handler goes on after PING and INFO in any letters, and ends the connection after everything else. |
| HmsEndpoint.DeliverIs | src/hms/hermes.c:168-206 | Delivering a list of messages handles them one by one in the same way. |
| HmsEndpoint.OversizeIsNotParsed | src/hms/hermes.c:406-423 | A message whose header exceeds the limit is rejected. |
| HmsEndpoint.Pipelined | src/hms/hermes.c:168-206 | Messages sent back to back are received one by one, in order, until a handler returns non-zero, a header exceeds the limit or the input ends. |
| HmsEndpoint.PipelinedFront | src/hms/hermes.c:168-206 | Whatever follows messages in the stream, they are received first. |
| HmsEndpoint.PartIsNotParsed | src/hms/hms_parser.c:29-57 | No proper prefix of a message is taken for a message. |
| HmsEndpoint.CutPipeline | src/hms/hermes.c:168-206 | A stream that breaks off anywhere delivers exactly the messages that have arrived whole. |
| HmsEndpoint.Exchange | src/hms/hermes.c:168-229 | Sender and receiver composed, for every list of messages and pattern of partial sends, short reads and failed sends: the messages in front of the first failure are received first, and nothing else if the connection stays down. |
| CopyFile.SendChunk | src/tests/copy_client.c:81-153 | Sends one chunk as a COPY message; it is complete exactly if no send failed, and the result is zero in either case. |
| CopyFile.SendFile | src/tests/copy_client.c:55-70 | The chunk loop sends the messages for the whole file, in order, exactly if no send failed; the status is zero in either case. |
| CopyFile.ChunkNumber | src/tests/copy_client.c:57-65 | Chunk number i starts at i times the chunk size and has that size, or what is left; there is one for every i below the end of the file. |
| CopyFile.ChunksCover | src/tests/copy_client.c:55-65 | The chunks cover the file exactly and do not overlap. |
| CopyFile.ChunkMsgSendable | src/tests/copy_client.c:94-121 | Every chunk message satisfies the conditions of the round trip and is a fixed point of it. |
| CopyFile.CopyAcceptsIs | src/tests/copy_server.c:76-90 | The verb COPY is accepted in any letters, and no other. |
| CopyFile.CopyHandleIs | src/tests/copy_server.c:92-137 | Exactly when a COPY message succeeds, and what it does to the files in each case. |
| CopyFile.WriteAtIs | src/tests/copy_server.c:123-126 | A write puts the data at its offset, leaves the other bytes and fills a gap with zero bytes. |
| CopyFile.ChunkMsgHandled | src/tests/copy_server.c:92-137 | The server writes the chunk at its offset and returns zero. |
| CopyFile.DeliverChunks | src/tests/copy_server.c:92-137 | Handling the first k of the remaining chunks writes the file as far as they reach and touches no other. |
| CopyFile.ShortNamesFit | src/tests/copy_client.c:97-99 | Names of up to 963 bytes fit a header. |
| CopyFile.LongNamesDoNotFit | src/tests/copy_client.c:97-99 | Names of 982 bytes or more fit no header. |
| CopyFile.CopiedIs | src/tests/copy_client.c:55-57 | Having all chunks written is a copy of the file, except for an empty file without a destination. |
| CopyFile.CopyServed | src/tests/copy_server.c:92-137 | The server receives the chunks in front of the first header over the limit, all of them exactly if there is none, and writes as far as they reach. |
| CopyFile.CopyEndToEnd | src/tests/copy_client.c:55-70 | Serving the client's bytes receives every chunk and leaves the source at the front of the destination, its old tail behind it and other files unchanged, if and only if every header fits the limit and the source is not empty or the destination exists. |
| CopyFile.CopyInterrupted | src/tests/copy_server.c:92-137 | Whatever proper prefix of the client's bytes arrives, the server has received the first chunks and the destination holds what they reach. |
| CopyFile.CopyResumed | src/tests/copy_server.c:92-137 | Whatever follows the first chunks in the stream, they are received first. |
| CopyFile.Transfer | src/tests/copy_server.c:92-137 | Client, connection and server together, for every pattern of partial sends, short reads and failed sends: the first k chunks are received first, all of them exactly if no send failed and every header fits; on a connection that stays down they are what is written. The client reports success in any case. |
| HmsExamples.CopyExample | src/tests/copy_client.c:94-128 | The COPY message that README.md shows is what the client sends for such a chunk, and it is received as such. |
| HmsExamples.HeaderLayout | src/hms/hms_msg.c:92-140 | The text of a header: the words of the verb line with one blank between them, one line for each named header, a line with a dot. |
| HmsExamples.LowerCaseLength | src/hms/hms_parser.c:159-163 | The line "content-length: 12" announces a body of 12 bytes. |
| HmsExamples.TypedVerb | src/hms/hms_parser.c:62-148 | A verb typed with a blank, a dot, carriage return and line feed is received, with nothing left over. |
| HmsExamples.TelnetSession | src/hms/hermes.c:168-206 | The session of README.md: INFO and PING are answered, BYE ends it, no file is touched. |
| HashChain.EarlyExit | src/hashtab/hashtable.c:137-143 | In a sorted chain the early exit misses no entry. |
| HashChain.FindAgrees | src/hashtab/hashtable.c:129-146 | Early-exit search finds exactly the entries that are there. |
| HashChain.InsertSorted | src/hashtab/hashtable.c:55-74 | Insertion keeps the chain strictly sorted. |
| HashChain.DeleteSorted | src/hashtab/hashtable.c:94-121 | Deletion keeps the chain strictly sorted. |
| HashChain.FindInserted | src/hashtab/hashtable.c:43-78 | After an insert the new key has the new datum, the others what they had. |
| HashChain.FindDeleted | src/hashtab/hashtable.c:80-127 | After a delete the key is gone, the others have what they had. |
| HashTable.InsertIs | src/hashtab/hashtable.c:43-78 | An insert is invalid exactly at 4294967295 entries and refused exactly if the key is there; otherwise the key has the datum and the others what they had. |
| HashTable.DeleteIs | src/hashtab/hashtable.c:80-127 | A delete answers with the datum that was there and removes exactly this key. |
| HashTable.StepRefines | src/hashtab/hashtable.c:43-146 | Each operation answers as a finite map does, error returns included, and keeps chains sorted, keys in their slots and the count. |
| HashTable.RunRefines | src/hashtab/hashtable.c:43-146 | So does every sequence of operations. |
| HashHeap.HashTab.constructor | src/hashtab/hashtable.c:13-41 | A new table refines the empty map. |
| HashHeap.HashTab.Search | src/hashtab/hashtable.c:129-146 | The pointer walk is the search on the table value. |
| HashHeap.HashTab.Insert | src/hashtab/hashtable.c:43-78 | Linking in a node is the insert on the table value; chains stay linked, apart and sorted, nel is the total, and no foreign node comes in. |
| HashHeap.HashTab.Delete | src/hashtab/hashtable.c:80-127 | Linking out a node is the delete on the table value; the same is kept. |
| HashHeap.HashTab.NodesApart | src/hashtab/hashtable.c:43-127 | No node is in two places: chains are acyclic and disjoint. |
| HashHeap.PerformAll | src/hashtab/hashtable.c:43-146 | Under every sequence of inserts, deletes and searches the linked chains answer as a finite map. |
| HashHeap.CreateAndPerform | src/hashtab/hashtable.c:13-146 | So they do from hashtab_create on, the map being empty at first. |
| HashIterate.Iterate | src/hashtab/hashtable.c:245-276 | From NULL the first node, otherwise the next one in slot-major order, and NULL exactly behind the last. |
| HashIterate.VisitAll | src/hashtab/hashtable.c:245-276 | Repeated calls visit all nel entries exactly once, slot by slot. |
| HashIterate.MapAll | src/hashtab/hashtable.c:173-194 | The callback sees the entries in the same order, up to the first that does not return zero, whose value is returned. |
| HashIterate.Stat | src/hashtab/hashtable.c:197-221 | The number of slots in use and the length of a longest chain. |

## Left out

- malloc failure, strdup and free, pthread and other system call errors: they end the process or belong to the platform; strings are values.
- Sockets, listening, the retry loop, signals, host lookup, the creation of threads: foreign calls. Connections are byte sequences with arbitrary short reads and partial sends.
- The mutex of the pool: a section between lock, wait and unlock is one step, because all accesses to the shared fields happen under the lock. The broadcasts behind the unlock of tpool_destroy are steps of their own.
- What a caller does with a pool that has been freed: runs end there. The free loop of tpool_destroy for a non-empty queue (`finish` other than 1).
- Work items that call the pool themselves: such a call is made by one of the callers. PoolDrain assumes that routines return.
- hermes_init, hermes_shutdown and _hms_listen: they add only easy cases, or depend on accept returning. Of the default handlers only the status is modelled, not the replies to PING, INFO and a message without a verb.
- Checksums: they are disabled in src/include/hermes.h:39.
- HmsParser.ParseMessage: rejects a Content-Length below zero. In the source the allocation of a negative size fails or the assertion behind the read loop ends the process, depending on the platform.
- Characters above 127 and locales in isspace, tolower and strtol; in-place NUL writes of strtok_r are modelled by what they leave to read.
- The field id of a message, hms_msg_get_verb, hms_msg_num_headers and hms_msg_num_named_headers: plain reads.
- hms_list_move, hms_list_del_init, hms_list_splice_init and the backward loop: combinations of what is there.
- The big-endian variant of SWAP.
- The contents of an MD5 structure after md5_finish, which the source calls invalid.
- HmsEndpoint.HandleEndpoint: handlers are functions on the part of the world they change, which may include the bytes sent back; failing sends of replies are not modelled.
- HmsEndpoint.Exchange: of a connection on which sends work again after one has failed it says only what is received first. The source then sends the body behind a header that is cut off, and what follows is not a sequence of messages.
- CopyFile.Transfer: the same.
- CopyFile.CopyHandle: opening fails only for the empty name and writes are complete; a real file system has more errors.
- hashtab_destroy, hashtab_print and the warning that hashtab_delete prints for an empty slot.
