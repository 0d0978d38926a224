# XDP2 core in Dafny

This project models three parts of XDP2 and proves properties of the models.

- **The shared FIFO** of `src/include/xdp2/fifo.h`: a ring with low-water-mark hysteresis, shared by any number of
  threads, with poll groups whose ready bits are updated under another mutex after the FIFO mutex has been dropped.
- **The multi-word bitmap engine** of `bitmap_helpers.h`, `bitmap.h` and `bitmap_word.h`: logic, copy, compare, find,
  shift and rotate at arbitrary bit positions, for forward and reverse maps and host-order and byte-swapped words.
- **Arithmetic kernels**: the Internet checksum, the incremental IPv4 header update, the Jenkins hash, expand and
  extract, and the direction-independent flow hash.

## How the models are built

**FIFO.** `Ring` holds the fields of the FIFO as a value, with 32-bit arithmetic written out, and the two sections that
change them under the FIFO mutex (`Put`, `Take`). `Fifo` is the object with the same fields updated in place; its
methods are proved equal to `Put` and `Take`. `Protocol` is the concurrent system. Each section that holds a mutex is one
atomic step, and so is each signal; a condition wait releases the mutex and sleeps in one step, a signal wakes one waiter
of the scheduler's choice, and wake-ups without a signal may happen at any time. A thread is a program counter that says
which step comes next. A run is any sequence of events by any number of threads; an event that is not possible does
nothing, so the theorems range over all interleavings. `Invariants` says what each step keeps; `Safety`, `Sleeping`,
`Waiting` and `Progress` say what follows for whole runs; `Sequential` is about calls that do not overlap, `Masks` says
what enabling and disabling polling do, and `Outcomes` how calls end. Some of what one would expect of the protocol holds
only for few threads or for certain sizes. `Overlap`, `Starving` and `Unpolled` say exactly for which configurations it
holds: for writability, for waiting consumers, for waiting producers, for both at once and for waiting pollers. Each gives
a run that fails for every other configuration; `Schedule` builds such runs.

**Bitmaps.** A word is a sequence of `W` bits, for any `W`. A `Format` says how a map lies in memory: forward or reverse
word order, and where each bit of a host-order word is found in the stored word. Every macro is modelled once, over all
formats, as a method on an array of stored words, and its contract speaks about `Bits`, the sequence of bits the map
stands for. So one proof covers all instances of a macro. `Simulate` runs each operation on the same maps in two formats,
forward and reverse or host order and byte-swapped, operands included: the results are the same maps again, in the two
formats, and the return values are equal. `GenBits` is the meaning of the logical operations: positions in a range take
the value an operator gives them, all others stay.

**Preconditions** are those of the source: positions are ordered and inside the map, shifts and rotations cover whole
words, and the operand of a `_gen` operation has every word that the code reads (`Gen.Readable`). The last of them may be
one whose bits are all masked away; one word behind the bits used is always enough (`Gen.GuardWordSuffices`). Where the
32-bit arithmetic of the source spoils a result, the model computes as the source does and the exact condition is proved:
for the aligned shift to the right, for the width of a reverse map in shifts, for the sum that tells whether a `_gen`
operation reads on, and for the rotation to the right.

## Model

| member | source | states |
|---|---|---|
| Ring.DistanceExact | src/include/xdp2/fifo.h:392-399 | The unsigned 32-bit difference of two ring indices is the true number of entries between them, for all pairs of indices, if and only if the ring has at most 2^31 entries. |
| Ring.StatusIsExact | src/include/xdp2/fifo.h:392-432 | num_in_queue, avail_in_queue, is_empty and is_full are exactly the occupancy, the free space, emptiness and fullness of the queue the ring stands for. |
| Ring.PutAppends | src/include/xdp2/fifo.h:1301-1328 | Enqueueing appends the message to the contents, keeps the ring sound and leaves queue_full set exactly if it was or the ring is now full. |
| Ring.TakeRemovesFirst | src/include/xdp2/fifo.h:1607-1638 | Dequeueing removes the oldest message, and queue_full is cleared exactly when occupancy falls below the low-water mark. |
| Ring.RingIsBoundedQueue | src/include/xdp2/fifo.h:1255-1359 | Every sequence of calls on a sound ring returns the same results and leaves the same contents as on a bounded queue. |
| Ring.RingConserves | src/include/xdp2/fifo.h:1557-1663 | Over every run of a new FIFO the messages accepted are those delivered, in order, followed by those still in the ring. |
| Ring.MarkMustBePositive | src/include/xdp2/fifo.h:222 | The ring agrees with the bounded queue on every run if and only if the low-water mark is greater than 0. |
| Ring.RepeatedDelivery | src/include/xdp2/fifo.h:1630-1638 | With a low-water mark of 0, for every ring size, a run after which an empty FIFO still delivers a message. |
| Fifo.Fifo.constructor | src/include/xdp2/fifo.h:1716-1741 | A new FIFO is sound and empty. |
| Fifo.Fifo.TryEnqueue | src/include/xdp2/fifo.h:1269-1328 | Fails exactly when the queue is full; otherwise appends, and reports exactly whether the queue was empty and whether it is now full. |
| Fifo.Fifo.TryDequeue | src/include/xdp2/fifo.h:1574-1652 | Fails exactly when the queue is empty; otherwise delivers the oldest message, and reports exactly whether the queue became empty and whether a blocked FIFO fell below the low-water mark. |
| Fifo.Fifo.NumInQueue | src/include/xdp2/fifo.h:392-399 | Returns the number of messages in the queue. |
| Invariants.PutOk | src/include/xdp2/fifo.h:1301-1328 | The mutex section of enqueue keeps every invariant of the protocol: the thread goes on to announce a message put into an empty FIFO, and falls asleep only if the FIFO is blocked. |
| Invariants.TakeOk | src/include/xdp2/fifo.h:1607-1652 | The mutex section of dequeue keeps every invariant: the thread goes on to announce space when it clears queue_full, and falls asleep only if the FIFO is empty. |
| Invariants.EnqueueOk | src/include/xdp2/fifo.h:1049-1080 | So does every step of enqueue after the ring was filled: marking the FIFO non-writable and checking it again. |
| Invariants.WritableOk | src/include/xdp2/fifo.h:999-1042 | So does every step of making a FIFO writable. |
| Invariants.ReadableOk | src/include/xdp2/fifo.h:897-940 | So does every step of making a FIFO readable. |
| Invariants.DequeueOk | src/include/xdp2/fifo.h:1521-1543 | So does every step of marking a FIFO non-readable after a dequeue and checking it again. |
| Invariants.PollingOk | src/include/xdp2/fifo.h:1136-1150 | So does waking up in a poll, and the check at the end of enabling read and write polling. |
| Invariants.BeginOk | src/include/xdp2/fifo.h:598-629 | So does the first section of every call: enqueue, dequeue, enabling and disabling polling, poll. |
| Invariants.LocalOk | src/include/xdp2/fifo.h:897-1153 | Every step any thread can take keeps the invariants. |
| Safety.MessagesConserved | src/include/xdp2/fifo.h:1255-1663 | In every run of any number of threads, what was received and then what is in the ring is what was sent. |
| Safety.AlwaysReadCovered | src/include/xdp2/fifo.h:897-980 | In every state of every run: if a bound, masked-in FIFO has a message and its ready bit is clear, some thread is at a step that will set the bit or check the FIFO again. |
| Safety.NoLostReadability | src/include/xdp2/fifo.h:1521-1543 | When no call is in progress, a bound, masked-in FIFO with a message is marked ready; any number of threads, polling enabled and disabled at will. |
| Safety.AlwaysWriteCovered | src/include/xdp2/fifo.h:1322-1347 | With one producer, a low-water mark not below the number of entries, or no consumer: between filling the ring and checking again, queue_full clear implies occupancy below the low-water mark; and if a bound, masked-in FIFO is not blocked and its ready bit is clear, some thread is at a step that will set or recheck it. |
| Safety.NoLostWritability | src/include/xdp2/fifo.h:773-800 | Under the same condition, when no call is in progress, a bound, masked-in FIFO that is not blocked is marked ready. |
| Masks.MaskIsLastCall | src/include/xdp2/fifo.h:737 | In every run polling is masked in if and only if the FIFO is bound and the last call that enabled or disabled it, of those that began, was one that enabled it; for reading and for writing. |
| Masks.DisabledIsNotPolled | src/include/xdp2/fifo.h:1115-1137 | In every run, from a disabling call to the next enabling one, a waiting poll of the group goes to sleep, unless the other side of the FIFO is in the same group. |
| Outcomes.WaitingCallsAreServed | src/include/xdp2/fifo.h:1270-1299 | In every run a call that waits and has returned was served by a step of its own thread, with nothing but waiting before: an enqueue has put its message, a dequeue has taken the oldest one, a poll has found a poll number ready and masked in. |
| Outcomes.OtherCalls | src/include/xdp2/fifo.h:1574-1588 | A call that does not wait never sleeps, and an enqueue or a dequeue fails, leaving the FIFO as it is, exactly if there is no space or no message. |
| Overlap.LostWritability | src/include/xdp2/fifo.h:1339-1344 | For every ring size and every low-water mark below it, any two producers and any consumer other than the first of them: a run after which all threads are idle, the FIFO is not blocked, is masked in, and its ready bit is clear. |
| Overlap.WritabilityExact | src/include/xdp2/fifo.h:1322-1347 | For every configuration: writability is never lost, on any run, if and only if there is at most one producer, the low-water mark is not below the number of entries, or nobody dequeues. |
| Sleeping.SignalWakes | src/include/xdp2/locks.h:140-141 | A signal leaves nobody waiting for a condition that at most one thread waited for. |
| Sleeping.AlwaysConsumerCovered | src/include/xdp2/fifo.h:1575-1605 | Unless there are two consumers and a separate producer: if a consumer is asleep and there is a message, some thread is going to signal the consumers, and no two consumers are asleep while there is a message. |
| Waiting.TakePending | src/include/xdp2/fifo.h:1640-1660 | A dequeue that unblocks the FIFO is going to signal the producers exactly twice. |
| Waiting.AlwaysOwed | src/include/xdp2/fifo.h:1270-1299 | Unless there are three producers and a separate consumer: while the FIFO is not blocked, no more producers are asleep than there are signals on their way to them. |
| Waiting.SleeperIsOwed | src/include/xdp2/fifo.h:1659-1660 | Then a producer asleep implies a thread that is going to signal the producers. |
| Waiting.AlwaysServed | src/include/xdp2/fifo.h:1355-1356 | With one entry and any threads: a consumer asleep and a message imply a consumer awake or a signal on its way, and likewise for a producer asleep and the free entry. |
| Waiting.NoDeadlock | src/include/xdp2/fifo.h:1270-1299 | With one entry, or without three producers and a separate consumer nor two consumers and a separate producer, blocking runs never deadlock: with nobody active, a sleeping producer means at least min(low-water mark, entries) messages, a sleeping consumer means none, so not both sleep. |
| Sleeping.ReadPollerIsWoken | src/include/xdp2/fifo.h:1136-1150 | With one poller, or two threads, a poller asleep while its masked-in FIFO has a message always has a thread on its way to signal the group. |
| Sleeping.WritePollerIsWoken | src/include/xdp2/fifo.h:999-1042 | The same for a masked-in FIFO that is not blocked, if writability is never lost. |
| Starving.ConsumerStarves | src/include/xdp2/fifo.h:1355-1356 | For every ring of two or more entries and every low-water mark, any two consumers and any other producer: a run after which one consumer is asleep, a message is there and nobody is active. |
| Starving.ConsumersExact | src/include/xdp2/fifo.h:1575-1605 | For every configuration: no run leaves a consumer asleep with a message there, when nobody is active, if and only if the FIFO has one entry or there are not two consumers and a separate producer. |
| Starving.ProducerStarves | src/include/xdp2/fifo.h:1640-1660 | For every ring of two or more entries and every low-water mark, any three producers and any other consumer: a run after which one producer is asleep, the FIFO is not blocked and nobody is active. |
| Starving.ProducersExact | src/include/xdp2/fifo.h:1270-1299 | For every configuration: no run leaves a producer asleep with the FIFO not blocked, when nobody is active, if and only if the FIFO has one entry or there are not three producers and a separate consumer. |
| Starving.DeadlockExact | src/include/xdp2/fifo.h:1270-1299 | For every configuration: no run leaves a producer and a consumer both asleep, when nobody is active, if and only if the FIFO has one entry, or there are neither three producers and a separate consumer nor two consumers and a separate producer. |
| Unpolled.ReaderUnpolled | src/include/xdp2/fifo.h:915-940 | Any two pollers and any third thread, with a producer: a run after which a message is there, the FIFO is masked in, nobody is active and one poller of its group is asleep. |
| Unpolled.ReadPollersExact | src/include/xdp2/fifo.h:1136-1150 | For every configuration bound for reading: no run leaves a poller asleep while the masked-in FIFO has a message, when nobody is active, if and only if nobody enqueues, at most one thread polls, or there are at most two threads. |
| Unpolled.LateWriterUnpolled | src/include/xdp2/fifo.h:1339-1344 | Where writability can be lost, a run after which a poller that came later waits in vain. |
| Unpolled.WritePollersExact | src/include/xdp2/fifo.h:999-1042 | For every configuration bound for writing: no run leaves a poller asleep while the masked-in FIFO is not blocked, when nobody is active, if and only if nobody polls, or writability is never lost and at most one thread polls or there are at most two threads. |
| Progress.StepLowersTotal | src/include/xdp2/fifo.h:897-940 | Every step of an active thread lowers a measure over all threads, although a signal gives another thread work. |
| Progress.CallsEnd | src/include/xdp2/fifo.h:1255-1663 | However the active threads are scheduled, the number of steps they can take is bounded by that measure. |
| Progress.EventuallyReady | src/include/xdp2/fifo.h:1521-1543 | From every reachable state, once the calls in progress have ended, which happens within the bound, the ready bits are right. |
| Sequential.EnqueueExact | src/include/xdp2/fifo.h:1255-1359 | An enqueue that is not interrupted keeps the ready bits exact: marked readable means not empty, not empty and masked in means marked readable, and so on for writing. |
| Sequential.DequeueExact | src/include/xdp2/fifo.h:1557-1663 | So does a dequeue that is not interrupted, also one that finds the FIFO empty. |
| Sequential.EnableReadExact | src/include/xdp2/fifo.h:598-629 | So does enabling read polling. |
| Sequential.EnableWriteExact | src/include/xdp2/fifo.h:773-800 | So does enabling write polling. |
| Sequential.SequentialExact | src/include/xdp2/fifo.h:1574-1588 | After every sequence of calls that do not wait and do not overlap the ready bits are exact: a poll reports no empty FIFO and, if the low-water mark is within the ring, no full one, and misses none that is masked in and ready. |
| Sequential.FullIsNonWritable | src/include/xdp2/fifo.h:1322-1347 | The enqueue that fills a masked-in FIFO leaves it marked non-writable if and only if the low-water mark is not above the number of entries. |
| Poll.PollGroup.constructor | src/include/xdp2/fifo.h:451-458 | In a new poll group every bit of the ready map and of the mask is 0, and so is start_pos. |
| Poll.PollGroup.PollNow | src/include/xdp2/fifo.h:1100-1134 | Returns the first ready, masked-in poll number in cyclic order from start_pos, or 128 if there is none, and moves start_pos behind it; the bitmaps do not change. |
| Poll.CloserToTurn | src/include/xdp2/fifo.h:1121-1124 | A poll that returns another number strictly lowers the cyclic distance from start_pos to a ready number. |
| Poll.PollIsFair | src/include/xdp2/fifo.h:1115-1129 | A poll number that stays ready and masked in over 128 consecutive polls is returned by one of them. |
| Bitmap.OrdersAreValid | src/include/xdp2/bitmap_helpers.h:106-107 | Byte swapping is an involution on bit positions for every word size. |
| Bitmap.ConvBytes | src/include/xdp2/bitmap_helpers.h:106-107 | Conversion keeps the bytes of a word in host order, and otherwise puts byte b in the place of byte n - 1 - b, n being the bytes of a word. |
| Bitmap.MirrorsIff | src/include/xdp2/bitmap_helpers.h:182-201 | Two maps in any two formats hold the same words exactly when they stand for the same bits. |
| Bitmap.ReverseMirrors | src/include/xdp2/bitmap_helpers.h:189-201 | A reverse map holds the same words as a forward map exactly when it is the words in the opposite order. |
| Bitmap.SwapMirrors | src/include/xdp2/bitmap_helpers.h:106-107 | A byte-swapped map holds the same words as a host-order map exactly when, in every stored word, byte b of the one is byte n - 1 - b of the other, n being the bytes of a word. |
| Tests.TestMeaning | src/include/xdp2/bitmap_helpers.h:68-87 | The bitwise tests are the number of set bits of the range, the existence of a set bit and the existence of a zero bit. |
| Tests.HandleWordIsBitwise | src/include/xdp2/bitmap_helpers.h:50-66 | Testing a masked stored word at once, in whatever byte order, is testing the masked bits one by one. |
| GenOps.DestModBit | src/include/xdp2/bitmap_helpers.h:112-137 | The value built for the first, partial destination word holds, at each needed bit, the source bit that belongs there, for every relation of the two offsets. |
| Reader.FetchBit | src/include/xdp2/bitmap_helpers.h:471-497 | The value joined from two neighbouring source words holds the next source bits in place, also when the second word is only read and not used. |
| Reader.AlignExact | src/include/xdp2/bitmap_helpers.h:471-484 | The first whole word is joined from the right source words, whatever they hold, if and only if the number of bits left and the offset add up to less than 2^32. |
| Gen.GuardWordSuffices | src/include/xdp2/bitmap_helpers.h:420-500 | One word of the source behind the bits used is enough for every word that is read, if the length is at least a word short of 2^32. |
| Gen.Gen2 | src/include/xdp2/bitmap_helpers.h:402-548 | For all positions and lengths exactly the positions from dest_pos to nbits take the operator of the shifted source bits and their own, all others stay, and the result is the test over those positions. A single-word source acts as that word repeated. The source needs the words that are read and no more, and the sum of AlignExact must not wrap around. |
| Gen3.Gen3 | src/include/xdp2/bitmap_helpers.h:624-785 | The same for an operator of two sources, each at its own position. |
| Compare.CompareGen | src/include/xdp2/bitmap_helpers.h:402-548 | In compare mode the result is the least position at which the operator yields a set bit, or nbits. |
| Laws.OperatorLaws | src/include/xdp2/bitmap_helpers.h:156-178 | The operators: AND as it is, OR as its dual, XOR as difference, and each negation in its place. |
| Laws.XorTwice | src/include/xdp2/bitmap_helpers.h:402-548 | Exclusive or with the same operand twice, at any positions, restores the destination. |
| Laws.NotTwice | src/include/xdp2/bitmap_helpers.h:402-548 | Copying with negation, by way of another map, and again, is copying. |
| Laws.FirstDifference | src/include/xdp2/bitmap_helpers.h:402-548 | A compare with exclusive or returns the first position at which the ranges differ, and nbits exactly if they agree. |
| Same.Same2 | src/include/xdp2/bitmap_helpers.h:300-397 | Exactly the positions from pos to nbits take the operator of the source bit and their own; the test is over those positions. |
| Same.Same3 | src/include/xdp2/bitmap_helpers.h:556-619 | The same for an operator of two sources. |
| ReadWrite.Read | src/include/xdp2/bitmap_helpers.h:1953-1973 | Returns the bits of the map from src_pos on, on a little-endian host. |
| ReadWrite.Write | src/include/xdp2/bitmap_helpers.h:1975-1995 | Puts the word at dest_pos and changes nothing else, whatever lies behind the union in memory. |
| ReadWrite.WriteThenRead | src/include/xdp2/bitmap_helpers.h:1951-1995 | A word written at any position is read back. |
| Shift.ShiftLeft | src/include/xdp2/bitmap_helpers.h:1282-1336 | The low nbits bits become those of the source shifted towards the high end, also in place, and their value that of the source times 2^num_shift modulo 2^nbits; the rest stays. A reverse map has fewer than 2^32 bits. |
| Shift.ShiftRight | src/include/xdp2/bitmap_helpers.h:1394-1447 | Every word is left as the code leaves it, with the index in `int` and the offset in `unsigned int`. Unless the shift is a whole number of words and 2^31 bits or more, the low nbits bits are those of the source shifted towards the low end, also in place, their value is that of the source divided by 2^num_shift, and the rest stays. |
| Shift.RightShiftExact | src/include/xdp2/bitmap_helpers.h:1417-1424 | For every amount and length, in arrays that have the words the code copies: the low nbits bits are those of the source shifted, whatever the words, if and only if the shift is below 2^31 or not a whole number of words. |
| Shift.RightFitsMap | src/include/xdp2/bitmap_helpers.h:1404-1424 | For a shift below 2^31 the words of the map itself are all that the aligned loop touches. |
| Shift.RightCountExact | src/include/xdp2/bitmap_helpers.h:1419-1421 | The aligned loop copies the words that remain of the map if and only if the shift is below 2^31; otherwise, with a word size that divides 2^32, more words than the map has. |
| Shift.WordsInBytesExact | src/include/xdp2/bitmap_helpers.h:1339-1357 | The number of words of a reverse map survives its detour through bytes in 32 bits if and only if the map has fewer than 2^32 bits. |
| Words.ShlIsMultiplication | src/include/xdp2/bitmap_helpers.h:1282-1336 | Shifting left by s is multiplying by 2^s modulo 2^nbits. |
| Words.ShrIsDivision | src/include/xdp2/bitmap_helpers.h:1394-1447 | Shifting right by s is dividing by 2^s, rounding down. |
| Words.WordShiftsAreArithmetic | src/include/xdp2/bitmap_helpers.h:103-107 | The word shifts are multiplication modulo 2^W and division by powers of two. |
| Rings.RingCount | src/include/xdp2/bitmap_helpers.h:1505-1519 | The number of rings that the word indices form is the greatest common divisor of the number of words and the rotation in words. |
| Rotate.MoveRing | src/include/xdp2/bitmap_helpers.h:1521-1595 | One ring is followed back to its base, moving each of its words once, none of another ring, and lowering the count by its length. |
| Rotate.MoveWords | src/include/xdp2/bitmap_helpers.h:1521-1595 | All words are moved once, in place or not, and the loop ends after gcd(words, rotation) rings. |
| Rotate.MakeRotate | src/include/xdp2/bitmap_helpers.h:1521-1595 | Both loops together leave each word rotated, for every number of words and every rotation. |
| Rotate.RolIsJoined | src/include/xdp2/bitmap_word.h:631-641 | Rotating the one word of a map in host order is the rotation of the map. |
| Rotate.RotateLeft | src/include/xdp2/bitmap_helpers.h:1597-1643 | The low nbits bits become those of the source rotated by num_rotate modulo nbits, dest being src or another array; the rest stays. |
| Rotate.RotateRight | src/include/xdp2/bitmap_helpers.h:1663-1670 | The rotation to the right as the code computes it, with nbits - num_rotate in 32 bits. |
| Rotate.RotationMovesBits | src/include/xdp2/bitmap_helpers.h:1521-1595 | Bit i goes to position (i + r) modulo nbits. |
| Rotate.RotationsCompose | src/include/xdp2/bitmap_helpers.h:1521-1595 | Rotations compose by adding their amounts. |
| Rotate.RightUndoesLeft | src/include/xdp2/bitmap_helpers.h:1663-1670 | Rotating right by r undoes rotating left by r on every map of n bits if and only if r is at most n or n divides 2^32. |
| Find.FindFrom | src/include/xdp2/bitmap_helpers.h:182-285 | find and find_zero return the least matching position from pos on, or nbits; find_next is the same from pos + 1. |
| Find.FindRoll | src/include/xdp2/bitmap_helpers.h:860-881 | find_roll returns the match with the least cyclic distance from pos, and nbits only if there is no match at all. |
| Find.ForEach | src/include/xdp2/bitmap.h:279-283 | The foreach loop ends after visiting exactly the matching positions, in ascending order. |
| Find.TestRange | src/include/xdp2/bitmap_helpers.h:182-285 | The test computed a word at a time is the bitwise test over the range. |
| Find.WeightIsCount | src/include/xdp2/bitmap_helpers.h:50-66 | The weight test is the number of positions foreach visits. |
| Simulate.SameAligned | src/include/xdp2/bitmap_helpers.h:402-440 | An operand in another format supplies the same bits, at every position. |
| Simulate.Gen2Both | src/include/xdp2/bitmap_helpers.h:402-548 | A logical operation on the same maps in two formats, say forward and reverse or host order and byte-swapped, leaves the same maps and returns the same value. |
| Simulate.Gen3Both | src/include/xdp2/bitmap_helpers.h:624-785 | So does an operation of two sources. |
| Simulate.CompareBoth | src/include/xdp2/bitmap_helpers.h:402-548 | So does a compare. |
| Simulate.Same2Both | src/include/xdp2/bitmap_helpers.h:300-397 | So does an operation at equal positions. |
| Simulate.Same3Both | src/include/xdp2/bitmap_helpers.h:556-619 | So does one of two sources at equal positions. |
| Simulate.ShiftLeftBoth | src/include/xdp2/bitmap_helpers.h:1282-1336 | So does a shift to the left. |
| Simulate.ShiftRightBoth | src/include/xdp2/bitmap_helpers.h:1394-1447 | So does a shift to the right, also one after which the map is not the source shifted. |
| Simulate.RotateBoth | src/include/xdp2/bitmap_helpers.h:1597-1670 | So does a rotation, in either direction. |
| Simulate.FindBoth | src/include/xdp2/bitmap_helpers.h:182-285 | So does a search. |
| Simulate.FindRollBoth | src/include/xdp2/bitmap_helpers.h:860-881 | So does a cyclic search. |
| Simulate.TestBoth | src/include/xdp2/bitmap_helpers.h:182-285 | So does a test, the Hamming weight included. |
| Expand.FindNext | src/include/xdp2/bitmap_word.h:203-214 | The least set bit behind pos, or 64. |
| Expand.ExpandWord | src/include/xdp2/bitmap_word.h:601-613 | The k-th bit of the value goes to the k-th set position of the pattern; all other bits are 0. |
| Expand.ExtractWord | src/include/xdp2/bitmap_word.h:615-628 | For every pattern of at most 31 set bits, wherever they lie, the bit at the k-th set position of the pattern becomes bit k; all higher bits are 0. |
| Expand.ExtractOfExpand | src/include/xdp2/bitmap_word.h:601-628 | Extracting what was expanded gives the value limited to as many low bits as the pattern has. |
| Expand.ExpandOfExtract | src/include/xdp2/bitmap_word.h:601-628 | Expanding what was extracted gives the value masked by the pattern. |
| Checksum.Fold32IsCanon | src/include/xdp2/checksum.h:39-45 | Folding any 32-bit value gives its canonical one's-complement value, 0 only for 0. |
| Checksum.Fold64IsCanon | src/include/xdp2/checksum.h:52-58 | The same for any 64-bit value. |
| Checksum.AddsAreOnesComplement | src/include/xdp2/checksum.h:65-105 | Adding 16, 32 or 64 bits to any accumulator and folding is one's-complement addition. |
| Checksum.Compute | src/include/xdp2/checksum.h:112-133 | For every buffer shorter than 2^32 bytes the 64-bit accumulator does not overflow, and the result is the canonical one's-complement sum of the zero-padded 16-bit words. |
| Checksum.ZeroOnlyForZeros | src/include/xdp2/checksum.h:112-133 | The checksum is 0 only for all-zero data. |
| Checksum.SplitsAtEvenOffset | src/include/xdp2/checksum.h:65-80 | The checksum of a buffer is the one's-complement sum of those of its parts at an even split. |
| Checksum.ByteOrderIndependent | src/include/xdp2/checksum.h:112-133 | Swapping the bytes of all words swaps the bytes of the checksum, odd lengths included. |
| DsField.NewCheckIs | src/include/flowdis/dsfield.h:33-41 | Despite the 32-bit wrap-around the new check value is the old one plus the old field minus the new one modulo 0xffff, and at most 0xfffe. |
| DsField.UpdateIsRfc1624 | src/include/flowdis/dsfield.h:33-41 | It is the update of section 3 of RFC 1624, HC' = ~(~HC + ~m + m'). |
| DsField.NewFieldBits | src/include/flowdis/dsfield.h:36 | Bit i of the new field is set if and only if it is set in the value, or in the old field and the mask. |
| DsField.SumAppends | src/include/flowdis/dsfield.h:30-43 | The sum of the header words is additive, and a word is its two bytes in network byte order. |
| DsField.ValidIsComplement | src/include/flowdis/dsfield.h:30-43 | The header checksum is valid if and only if it is the complement of the one's-complement sum of the other words, both zeros counting as one. |
| DsField.ChangeDsField | src/include/flowdis/dsfield.h:30-43 | The header in memory becomes the changed header. |
| DsField.ChangeKeepsChecksum | src/include/flowdis/dsfield.h:30-43 | For every IPv4 header, mask and value the header checksum is valid afterwards if and only if it was before, and only the field and the checksum change. Bit i of the new field is set if and only if it is set in the value, or in the old field and the mask; a full mask with value 0 leaves the field, an empty mask replaces it. |
| Jhash.MixIsBijective | src/include/flowdis/jhash.h:45-54 | Mixing is a bijection on the three registers, with the inverse given. |
| Jhash.FinalIsInjective | src/include/flowdis/jhash.h:56-66 | The registers before the final mixing can be recovered from those after it. |
| Rol32.RolMovesBits | src/include/flowdis/bitops.h:32-35 | Rotating left by s moves bit i to place i + s modulo 32, for every s below 32. |
| Jhash.MixLine | src/include/flowdis/jhash.h:48-53 | A line of the mixing, as assignments of 32-bit words. |
| Jhash.MixInPlace | src/include/flowdis/jhash.h:45-54 | The six lines of the mixing with their amounts, in order. |
| Jhash.FinalLine | src/include/flowdis/jhash.h:59-65 | A line of the final mixing, as assignments of 32-bit words. |
| Jhash.FinalInPlace | src/include/flowdis/jhash.h:56-66 | The seven lines of the final mixing with their amounts, in order. |
| Jhash.BlocksAreBijective | src/include/flowdis/jhash.h:134-142 | For every key the block loop is a bijection on the registers. |
| Jhash.Jhash2 | src/include/flowdis/jhash.h:127-155 | The loop over words computes the hash of the words. |
| Jhash.Jhash | src/include/flowdis/jhash.h:81-118 | For every key, whatever its length, the loop over bytes computes the hash of the zero-padded little-endian words with the length in bytes. |
| Jhash.FixedFormsAreJhash2 | src/include/flowdis/jhash.h:159-183 | The forms for one, two and three words are jhash2 of that many words. |
| Jhash.JhashOfBytesIsJhash2 | src/include/flowdis/jhash.h:81-155 | Over the bytes of n words the byte form is the word form, for every n and initial value. |
| Jhash.OneWordHash | src/include/flowdis/jhash.h:180-183 | The hash of the word 1 is 0x72a82a9b. |
| Jhash.ThreeWordsHash | src/include/flowdis/jhash.h:170-173 | The hash of the words 1, 2, 3 is 0xa46158f5. |
| Jhash.FourWordsHash | src/include/flowdis/jhash.h:127-155 | The hash of the words 1, 2, 3, 4, one mixed block and a last one, is 0x66491246. |
| Jhash.FiveBytesHash | src/include/flowdis/jhash.h:81-118 | The hash of the bytes 1 to 5 is 0xf85554a4. |
| FlowHash.HashInput | src/include/parselite/parser.h:186-203 | The hashed bytes are as many as the computed hash length says, for every kind of address. |
| FlowHash.InputLayout | src/include/parselite/parser.h:67-107 | Where the fields lie in the hashed bytes: the fields from eth_proto on in the first 20, the two ports, low byte first, behind them, then the ICMP field, and the addresses from byte 28 on. |
| FlowHash.InputIsExact | src/include/parselite/parser.h:186-203 | Two packets of one kind have the same hash input if and only if those fields and the hashed part of the addresses agree. |
| FlowHash.FirstByteOrders | src/include/parselite/parser.h:239-250 | IPv6 end points are exchanged according to the first byte in which the addresses differ. |
| FlowHash.LastByteOrders | src/include/parselite/parser.h:228-237 | IPv4 end points are exchanged according to the last byte of the addresses, if it differs by less than 128. |
| FlowHash.PortsOrder | src/include/parselite/parser.h:228-255 | With equal addresses the end points are exchanged exactly if the second port is the lower; of another kind, never. |
| FlowHash.SwapHalves | src/include/parselite/parser.h:246-248 | The loop exchanges the two IPv6 addresses. |
| FlowHash.OrderEndPoints | src/include/parselite/parser.h:224-255 | The addresses and ports in memory become those of the ordered metadata. |
| FlowHash.ComputeHash | src/include/parselite/parser.h:207-216 | The hash is a 32-bit number and never 0. |
| FlowHash.HashIsCut | src/include/parselite/parser.h:207-216 | The hash is the low 32 bits of the keyed hash, and 1 if they are 0. |
| FlowHash.DirectionIndependence | src/include/parselite/parser.h:219-258 | Both directions of a flow give the same hash input if and only if the addresses are IPv6, or IPv4 addresses that do not differ by 2^31. |
| FlowHash.DirectionMatters | src/include/parselite/parser.h:228-237 | The addresses 0.0.0.10 and 0.0.0.138, whatever the other fields: the two directions are hashed differently. |

## Left out

- Binding and unbinding FIFOs while other threads run: bindings are fixed before the first step.
- FIFO statistics, magic numbers, address translation, debug locks and dump functions: no effect on the protocol.
- Entries of several double words: a message is one value, copied as a whole.
- Poll indices that are not FIFOs, and the signal and unsignal calls: their meaning belongs to the caller.
- The waiting loop of a poll when other poll numbers are ready is a choice of the environment; it does not move start_pos.
- A FIFO without condition variables: the conditions are taken to exist, as waiting asserts.
- Setting a range to zeros or ones, a masked head, a memset over the whole words and a masked tail: the ranges are those of the tests and the operations at equal positions, and there is no operand. And set, unset, set_val and isset of single bits, one masked access each.
- The compare functions with a single-word operand: the source passes the word as the operand that is stepped through.
- The compare mode at equal positions: the general compare at two positions is modelled.
- Operands that overlap the destination in the logical operations: a source is read as it was before the call.
- Bit positions and lengths beyond 2^32: the model does not exclude them where the source would be right for them. In find and compare the product of a word index and the word size is one of `int`; from 2^31 bits on it is taken to wrap around, which leaves the position right.
- FindNext: at position 63 the source first shifts by 64, and does not use the value; that shift, which extracting by a pattern with bit 63 reaches, is not modelled.
- Swapped and reverse read and write of words: they depend on the layout of a union on one kind of host.
- Word-level logic with logical negation, and the word macros for zero bits.
- ExpandWord: patterns of 2^31 and more are excluded, because the source shifts an `int`.
- ExtractWord: patterns of more than 31 set bits are excluded, because the source shifts an `int` by the number of bits already extracted.
- SipHash itself: the flow hash is stated for the bytes that are hashed.
- HashInput: the layout of the metadata (112 bytes, hashed from offset 48, addresses at 76) is that of the usual 64-bit ABI.
- The parsers, flow dissector, tables, CRC, LZF, murmur hash, protocol headers, XDP programs and command-line code.
