# ScarlettOS, modelled and proved in Dafny

This project models the parts of ScarlettOS with the most state and arithmetic
and proves, for every input and every run, what they are for.

`dafny verify dfyconfig.toml` checks everything.

| part of the system | modules | main results |
|---|---|---|
| message ports | `IpcModel`, `IpcWakeups`, `IpcPort` | invariant of every interleaving, exact queue bound, exact conditions for missed wake-ups, messages conserved in order |
| boot page tables | `PageWalk`, `Paging`, `PagingPool`, `PagingSetup` | mapping a page is an update of the translation and its rights, the finished tables follow one plan, exact number of pages needed |
| block layer | `BlockDevice` | multi-block access under wrapping bounds checks, exact condition for a clean failure |
| FAT volume and files | `Fat32Table`, `Fat32Chain`, `Fat32`, `Fat32File` | table and cache coherent, freeing on cyclic chains, a file is a byte array |
| wide arithmetic | `Division`, `BnValue`, `BigNum`, `BigNumArith`, `BigNumShift`, `BigNumBytes`, `BigNumDiv`, `BigNumCases` | exact results, aliasing included, and where they are wrong |
| AES | `Gf256`, `AesTables`, `AesSbox`, `AesRound`, `AesState`, `AesCipher`, `AesKeys`, `AesBlock`, `Aes`, `AesBytes`, `AesStandard` | decryption undoes encryption; the cipher is that of FIPS-197, byte by byte, for 128 and 256 bits |
| encrypted disk | `EncryptedView`, `DiskEncryption`, `DiskEncryptionRun` | a header and a plain array of blocks over the encrypted device, exact condition for a safe header |
| SHA-256 | `Sha256Spec`, `Sha256Stream`, `Sha256`, `Primes`, `Sha256Roots`, `Sha256Standard` | the digest does not depend on how the message is cut; what agrees with FIPS 180-4 and what one wrong constant changes |
| text editor | `EditorText`, `EditorDoc`, `Editor` | lines and cursor are a flat string and a position |
| time stamps | `Calendar`, `FatTime` | round trips both ways |
| drawing | `Raster` | number of points and distance from the ideal curve |

`Bits` holds C's bit operators on natural numbers, `Words` 32-bit words as bytes,
`Values` what several parts share.

## How the source is modelled

- An object the source updates is a class; its methods follow the source's
  statements and are specified by functions on values.  Arrays that the source
  grows are sequences whose length is the capacity; fixed buffers are arrays.
- Machine integers are natural numbers with the wrap-around written out where
  a sum or a cast can reach it, and bit vectors in the ciphers and the hash.
- Interleavings are a state machine whose steps are the critical sections of the
  calls.  A blocking call is two steps, up to the block and from the wake-up on,
  with a window between the release of the port lock and the block.
- The firmware's page allocator, memory allocation, the processor's page walk,
  disks, the reading and writing of files and the screen are parameters or
  values; devices do not fail.
- `Same` in contracts is equality of whole values.

## Where the code and its promises differ

The code is modelled as it is.  Each point names a concrete case, the exact
condition where there is one, or both.

- A thread that put itself on a waiting list but has not blocked yet is not
  found by `thread_unblock`; its wake-up is lost for good
  (`IpcModel.NoneLostIffRaceFree`, `IpcWakeups.LostWakeupExample`).  Whether a
  message then waits beside a parked receiver, or a free slot beside a parked
  sender, has its own exact condition (`IpcWakeups.NoLostReceiverWakeup`,
  `IpcWakeups.ParkedSenderMeansFull`, `IpcWakeups.DrainedExample`).
- The queue limit of a port can be passed by one message for each further
  sender (`IpcModel.QueueBoundReached`).
- The frame buffer's base is rounded down and its size up separately, so its end
  can stay unmapped (`PagingSetup.FramebufferCovered`).
- `bn_copy` onto itself and shifts by zero in place clear the number
  (`BigNumCases.ShiftByZeroClears`); `bn_add` keeps stale words of a longer
  result (`BigNumArith.StaleIsZero`, `BigNumCases.AddKeepsStaleWord`); `bn_div`
  loses the remainder of a smaller dividend that an output overwrites
  (`BigNumCases.DivLosesRemainder`).
- `bn_div` by several words sets bits above `top`, where the next shift drops
  them: quotient and remainder are always 0 (`BigNumDiv.DivLong`,
  `BigNumDiv.LongIsRightIff`), and `bn_gcd` inherits that
  (`BigNumDiv.GcdRightIff`).
- A seek before the beginning of a file lands at its end
  (`Fat32File.SeekExample`).
- A multi-block write whose sum wraps back into the bounds check overwrites
  blocks before it fails (`BlockDevice.FailsCleanlyIff`,
  `BlockDevice.SpillExample`).
- The comment in aes192.c places an additional substitution in the key schedule;
  section 5.2 of FIPS-197 has none for this key length
  (`Aes.SourceScheduleIsStandard`).
- Constant 55 of SHA-256 is 0x6f1c0e5b; section 4.2.2 of FIPS 180-4 asks for
  0x682e6ff3 (`Sha256Roots.ConstantIsCubeRoot`).  The compression of every chunk
  differs because of it, and with it the hash of every message that fits one
  chunk (`Sha256Standard.CompressionDiffers`, `Sha256Standard.ShortHashDiffers`).
- A user flag given to the mapping functions has no effect, because the links
  above the page never carry it (`Paging.PageTables.MapPage4K`).
- A multi-block write at the last 64-bit block number passes the bounds check and
  reaches the header of an encrypted disk (`DiskEncryption.HeaderSafeIff`).
- The comment in fat32_utils.c says leap years are not accounted for; the code
  does account for them.

## Model

| member | source | states |
|---|---|---|
| `IpcModel.StepKeepsInv` | kernel/ipc/ipc.c:162-379 | every step of send, receive and try_receive, by any thread, keeps the port invariant: threads are in one place at a time, parked receivers are matched by wake-ups, senders by space, and the queue is bounded |
| `IpcModel.Reachable` | kernel/ipc/ipc.c:162-379 | the invariant holds in every state reachable by any interleaving of any threads |
| `IpcModel.ReceiverWakeupAccount` | kernel/ipc/ipc.c:234-241 | in every reachable state with a parked receiver, woken receivers plus receivers whose wake-up was lost are at least as many as queued messages |
| `IpcWakeups.NoLostReceiverWakeup` | kernel/ipc/ipc.c:234-315 | in every state of a run a parked receiver means at least as many woken receivers as queued messages, if and only if no step of the run hands its unblock to a receiver still in its window while a second one is parked and every woken receiver already has a message |
| `IpcWakeups.RaceFreeNeverStarves` | kernel/ipc/ipc.c:234-324 | a race-free run has no such step for receivers, and none for senders when every resumed sender finds memory |
| `IpcModel.NoneLostIffRaceFree` | kernel/sched/scheduler.c:592-650 | a run strands a thread if and only if some step unblocks a thread between its entry in the waiting list and its block |
| `IpcWakeups.LostForever` | kernel/sched/scheduler.c:611-650 | a thread whose unblock was lost takes no step of any continuation but its own block: it neither resumes nor calls again |
| `IpcWakeups.LostWakeupExample` | kernel/ipc/ipc.c:282-299 | for every limit a concrete run: one message queued, one receiver parked, none woken, and a thread that takes no further step but its block in any continuation |
| `IpcModel.QueueBound` | kernel/ipc/ipc.c:193-232 | with n sending threads queue size plus woken senders is at most max + n - 1; one sender never exceeds max |
| `IpcModel.QueueBoundReached` | kernel/ipc/ipc.c:193-232 | for every max and n a run puts exactly max + n - 1 messages in the queue, so the bound is exact |
| `IpcWakeups.ParkedSenderMeansFull` | kernel/ipc/ipc.c:193-246 | in every state of a run a parked sender means that queue size plus woken senders is at least max, if and only if no step at exactly max hands its unblock to a sender still in its window while a second one is parked, or fails to allocate for a woken sender while one is parked |
| `IpcWakeups.DrainedExample` | kernel/ipc/ipc.c:317-324 | for every limit a concrete run that leaves a free slot, a parked sender and nobody woken |
| `IpcWakeups.NoMutualWait` | kernel/ipc/ipc.c:193-324 | in a run without those two kinds of steps senders and receivers are never parked together with nobody woken |
| `IpcWakeups.MutualWaitExample` | kernel/ipc/ipc.c:193-324 | with such a step they can be |
| `IpcModel.StepConserves` | kernel/ipc/ipc.c:211-232 | one step: old queue plus accepted messages equals handed-out messages plus new queue, in order |
| `IpcModel.Conservation` | kernel/ipc/ipc.c:299-315 | over every run: queue before plus messages accepted, each carrying its submitting thread and what it submitted, equals messages delivered plus queue after, in order |
| `IpcModel.SendersAreGenuine` | kernel/ipc/ipc.c:211-232 | in every run the k-th accepted message carries the thread that submitted it as its sender, and the number, kind and payload that were submitted |
| `IpcModel.ResumedIsPassed` | kernel/ipc/ipc.c:193-232 | a resumed send submits the thread and the message of the last send call of that thread, whatever happened in between |
| `IpcModel.OutcomeIff` | kernel/ipc/ipc.c:162-379 | the exact outcome of every step: which call blocks, which message it accepts under which sender, which message it hands out, and when it fails |
| `IpcModel.WaitersIff` | kernel/ipc/ipc.c:193-246 | threads wait on stacks: the last to park is the first to be unblocked, a send unblocks one receiver, a receive one sender, and the unblock is lost exactly when its thread has not blocked yet |
| `IpcModel.ConservationFromStart` | kernel/ipc/ipc.c:354-365 | on a new port accepted messages are the delivered ones followed by the queued ones |
| `IpcPort.Port.Append` | kernel/ipc/ipc.c:211-232 | the linked list gains one node at the tail whose message carries the calling thread and what it submitted; head, tail and size represent the longer queue |
| `IpcPort.Port.TakeHead` | kernel/ipc/ipc.c:299-315 | the linked list loses its first node, whose message is returned |
| `IpcPort.Port.Send` | kernel/ipc/ipc.c:162-246 | the call up to its block is the Send step of the state machine, on the linked list |
| `IpcPort.Port.ResumeSend` | kernel/ipc/ipc.c:203-232 | the rest of a woken send is the ResumeSend step |
| `IpcPort.Port.Receive` | kernel/ipc/ipc.c:251-329 | the call up to its block is the Receive step |
| `IpcPort.Port.ResumeReceive` | kernel/ipc/ipc.c:289-315 | a woken receive is the ResumeReceive step |
| `IpcPort.Port.TryReceive` | kernel/ipc/ipc.c:334-379 | the non-blocking receive is the TryReceive step |
| `IpcPort.Port.constructor` | kernel/ipc/ipc.c:74-104 | a new port is the initial state: empty list, nobody waiting |
| `PageWalk.WalkIsView` | bootloader/uefi/paging.c:45-123 | the processor's walk of an unshared tree of tables is the lookup along the tree |
| `PageWalk.NoSharing` | bootloader/uefi/paging.c:45-123 | in such a tree no two slots link the same table |
| `PageWalk.LinkEmpty` | bootloader/uefi/paging.c:54-82 | linking an empty table in an empty slot keeps the tree and every translation |
| `PageWalk.SetPte` | bootloader/uefi/paging.c:84-87 | storing a page entry changes the walk of exactly the addresses of that page |
| `PageWalk.SetPde` | bootloader/uefi/paging.c:118-123 | storing a large entry changes the walk of exactly the addresses of that 2 MB region |
| `Paging.PageTables.AllocPageTable` | bootloader/uefi/paging.c:19-40 | a fresh zeroed table, all others unchanged; fails exactly when the firmware has no page |
| `Paging.PageTables.NextTable` | bootloader/uefi/paging.c:54-82 | following or creating a link keeps the tree, every translation and its rights, and a link grants writing and execution to the supervisor alone; it fails exactly when the link is missing and the firmware has no page, and takes one page exactly for a missing link |
| `Paging.PageTables.MapPage4K` | bootloader/uefi/paging.c:45-87 | after success every walk is the old one updated at that page, to the frame with the rights that all four levels grant together (writing as asked, never the user, always execution); after failure it is the old one; the tables stay a tree; tables linked and pages left are those of following or taking the three levels in turn |
| `Paging.PoolSuffices` | bootloader/uefi/paging.c:54-82 | taking a list of tables in turn succeeds if and only if there is a page for each that is not linked yet, and then exactly those are linked |
| `Paging.FewSuffice` | bootloader/uefi/paging.c:45-123 | three free pages are enough for any 4 KB mapping and two for any 2 MB mapping |
| `Paging.PageTables.MapPage2M` | bootloader/uefi/paging.c:92-123 | the same for a 2 MB region over three levels |
| `PagingSetup.SetupPageTables` | bootloader/uefi/paging.c:129-190 | on success every address translates as one plan says, frame, flags and rights over all levels: no loop undoes an earlier one, and everything mapped is writable by the supervisor and closed to the user; it succeeds if and only if the firmware has a page for each distinct table of the plan |
| `PagingSetup.NeededAtMost` | bootloader/uefi/paging.c:129-190 | a pool size that is enough, in closed form: one page for the root, one for each 2 MB, 1 GB and 512 GB that a 4 KB region touches, five for the direct map |
| `PagingSetup.PlanWindows` | bootloader/uefi/paging.c:143-188 | the plan is the identity on the first gigabyte, the kernel window, the 4 GB direct map and the rounded frame buffer |
| `PagingSetup.FramebufferCovered` | bootloader/uefi/paging.c:166-175 | every byte of the frame buffer has its uncached mapping if and only if base offset plus size fit in the rounded size |
| `PagingSetup.FramebufferCutExample` | bootloader/uefi/paging.c:166-175 | a one-page frame buffer in the middle of a page is cut short |
| `BlockDevice.Disk.Read` | kernel/fs/block.c:76-90 | reads the block, fails exactly outside the device |
| `BlockDevice.Disk.Write` | kernel/fs/block.c:95-109 | replaces that block alone, fails exactly outside the device |
| `BlockDevice.Disk.ReadBlocks` | kernel/fs/block.c:114-138 | for every start and count succeeds exactly for a non-empty range inside the device; the buffer holds the blocks moved before the call ends |
| `BlockDevice.Disk.WriteBlocks` | kernel/fs/block.c:143-167 | succeeds exactly for such a range; on success and on failure the device is the old one with the blocks moved put in from the start on |
| `BlockDevice.PassedCheck` | kernel/fs/block.c:119-121 | a request that passes the wrapping check moves blocks up to the first number outside the device, all of them exactly when it lies inside |
| `BlockDevice.FailsCleanlyIff` | kernel/fs/block.c:148-167 | a failed write leaves the device alone whatever it writes, if and only if not: count positive, start inside, sum past 2^64, wrapped sum at most the size |
| `BlockDevice.SpillExample` | kernel/fs/block.c:148-167 | start 5, count 2^64 - 3 on ten blocks: the check sees 2 and five blocks are overwritten |
| `Fat32Table.FatUpdate` | kernel/fs/fat32.c:165-201 | writing one word in every copy of its sector changes that entry of the table and no other |
| `Fat32Table.AllCopiesWritten` | kernel/fs/fat32.c:189-199 | after the copies are written all tables are equal again |
| `Fat32Table.WordBytes` | kernel/fs/fat32.c:182-186 | byte k of a stored entry is byte k of its word, least significant first |
| `Fat32Table.ClustersTile` | kernel/fs/fat32.c:112 | cluster 2 starts the data region, each cluster starts where the one before it ends and the last one ends the region |
| `Fat32Table.LinkBits` | kernel/fs/fat32.c:182-186 | masking gives the 28-bit link; storing keeps the high four bits |
| `Fat32Table.ClusterWritten` | kernel/fs/fat32.c:121-131 | writing a cluster replaces its data and leaves every other cluster and the tables |
| `Fat32Chain.TrailIsAll` | kernel/fs/fat32.c:227-244 | a trail that ends or bites its own tail holds exactly the clusters reachable from the start |
| `Fat32Chain.FreeUndoesAlloc` | kernel/fs/fat32.c:206-244 | freeing a newly allocated cluster restores the table |
| `Fat32.Volume.ReadCluster` | kernel/fs/fat32.c:106-116 | returns the cluster's bytes, fails exactly out of range |
| `Fat32.Volume.WriteCluster` | kernel/fs/fat32.c:121-131 | replaces the cluster's bytes alone; the table keeps its value |
| `Fat32.Volume.GetNextCluster` | kernel/fs/fat32.c:136-160 | the 28-bit link of the entry, end-of-chain out of range; the cached sector equals the device sector |
| `Fat32.Volume.SetNextCluster` | kernel/fs/fat32.c:165-201 | the table with that entry's link replaced and its high bits kept, in every copy; nothing outside the tables |
| `Fat32.Volume.AllocCluster` | kernel/fs/fat32.c:206-222 | the lowest free cluster, marked as end of chain, no other entry changed; 0 exactly when none is free |
| `Fat32.Volume.FreeCluster` | kernel/fs/fat32.c:227-244 | terminates on every table, cyclic ones included, and frees exactly the clusters reachable from the start |
| `Fat32.Run` | kernel/fs/fat32.c:136-244 | every sequence of get, set, alloc and free acts as on an array of entries; cache and copies stay coherent |
| `Fat32File.File.Flush` | kernel/fs/fat32_file.c:54-76 | a dirty buffer reaches its cluster; the content is unchanged |
| `Fat32File.File.LoadCluster` | kernel/fs/fat32_file.c:81-111 | the buffer holds the cluster asked for; the content is unchanged |
| `Fat32File.File.ClusterForPosition` | kernel/fs/fat32_file.c:116-136 | the cluster of the chain that holds the position |
| `Fat32File.File.Read` | kernel/fs/fat32_file.c:219-272 | the slice of the content from the position, clipped at the end; the position advances by its length |
| `Fat32File.File.Write` | kernel/fs/fat32_file.c:277-370 | a write ending inside the file replaces that slice of the content; refused on a read-only handle |
| `Fat32File.File.Seek` | kernel/fs/fat32_file.c:375-406 | from the beginning, the position or the end of the file by the offset when that is inside the file, otherwise at the end, also for targets before the beginning; other origins are refused and change nothing |
| `Fat32File.SeekExample` | kernel/fs/fat32_file.c:389-402 | five bytes back from position 3 of ten lands at the end |
| `Fat32File.File.Close` | kernel/fs/fat32_file.c:204-214 | leaves exactly the content on the disk |
| `Fat32File.Run` | kernel/fs/fat32_file.c:219-406 | every run of seeks, reads and in-place writes is the run on a byte array with a position |
| `Division.ShiftFits` | kernel/core/compiler_builtins.c:28-38 | the shifted partial remainder fits in 128 bits in every round, also for divisors above 2^127 |
| `Division.Udivti3` | kernel/core/compiler_builtins.c:16-44 | the quotient for every 128-bit dividend and divisor, 0 for divisor 0 |
| `Division.Umodti3` | kernel/core/compiler_builtins.c:49-75 | the remainder, 0 for divisor 0 |
| `BigNum.Bn.Ensure` | kernel/crypto/bn.c:14-32 | room for n words, value unchanged, new words zero |
| `BigNum.Bn.FixTop` | kernel/crypto/bn.c:35-41 | normal form for any words |
| `BigNum.Bn.Copy` | kernel/crypto/bn.c:66-77 | the value of the words below top of the source; a copy onto itself clears the number |
| `BigNum.Bn.Cmp` | kernel/crypto/bn.c:151-161 | the order of the values; an object of fewer words is less whatever it holds |
| `BigNum.AddWord` | kernel/crypto/bn.c:163-182 | word sum and carry are the sum |
| `BigNum.SubWord` | kernel/crypto/bn.c:184-210 | word difference and borrow are the difference |
| `BigNumArith.Add` | kernel/crypto/bn.c:163-182 | the exact sum plus the weight of whatever words the result held above the carry, aliasing included |
| `BigNumArith.StaleIsZero` | kernel/crypto/bn.c:163-182 | that weight is zero if and only if those words are zero |
| `BigNumArith.Sub` | kernel/crypto/bn.c:184-210 | the exact difference for a >= b, refused and unchanged otherwise, aliasing included |
| `BigNumArith.MulWord` | kernel/crypto/bn.c:225-234 | product plus two words is high and low word: the 128-bit accumulator never overflows |
| `BigNumArith.Mul` | kernel/crypto/bn.c:212-243 | the exact product in normal form, aliasing included |
| `BigNumShift.LShift` | kernel/crypto/bn.c:245-279 | the words below top times the power of two, except a shift by zero in place, which clears the number |
| `BigNumShift.RShift` | kernel/crypto/bn.c:281-321 | the quotient by the power of two, with the same exception |
| `BigNumBytes.FromBytes` | kernel/crypto/bn.c:92-112 | the big-endian value of the bytes |
| `BigNumBytes.ToBytes` | kernel/crypto/bn.c:114-131 | the value modulo 256 to the length, big-endian, zero-padded |
| `BigNumBytes.BitCount` | kernel/crypto/bn.c:133-145 | the least number of bits that holds the value |
| `BigNumBytes.ImportExport` | kernel/crypto/bn.c:92-131 | export at the same length undoes import |
| `BigNumBytes.ExportImport` | kernel/crypto/bn.c:92-131 | import undoes export if and only if the value fits in the length |
| `BigNumBytes.BytesUnique` | kernel/crypto/bn.c:92-131 | byte strings of one length with one value are equal |
| `BigNumDiv.Div` | kernel/crypto/bn.c:324-412 | for all operands: quotient and remainder, except that the remainder is 0 when an output clobbers a smaller dividend and both are 0 when the divisor has several words and is not greater |
| `BigNumDiv.DivLong` | kernel/crypto/bn.c:369-412 | the bitwise loop answers 0 and 0 for every dividend: each bit is stored above top and dropped by the next shift |
| `BigNumDiv.LongIsRightIff` | kernel/crypto/bn.c:369-412 | there the quotient is never right and the remainder is right if and only if the divisor divides the dividend |
| `BigNumDiv.GcdBn` | kernel/crypto/bn.c:516-536 | for all operands Euclid's recursion cut short at the first step that divides by several words |
| `BigNumDiv.GcdRightIff` | kernel/crypto/bn.c:516-536 | that is the greatest common divisor if and only if the smaller operand has one word or divides the other |
| `BigNumDiv.GcdDivisors` | kernel/crypto/bn.c:516-536 | the divisors of Euclid's result are exactly the common divisors |
| `BigNumCases.AddKeepsStaleWord` | kernel/crypto/bn.c:163-182 | 1 + 1 into an object that holds 2^128 is 2 + 2^128 |
| `BigNumCases.DivLosesRemainder` | kernel/crypto/bn.c:327-331 | 5 modulo 7 stored over the dividend is 0 |
| `BigNumCases.LongDivisionAnswersZero` | kernel/crypto/bn.c:369-412 | 2^64 divided by itself is 0 |
| `BigNumCases.ShiftByZeroClears` | kernel/crypto/bn.c:245-246 | 1 shifted in place by no bits is 0 |
| `Gf256.Gmul` | kernel/crypto/aes256.c:175-189 | the loop is multiplication modulo x^8 + x^4 + x^3 + x + 1 |
| `Gf256.XorMul` | kernel/crypto/aes256.c:175-189 | multiplication is additive in its first argument |
| `Gf256.MulXor` | kernel/crypto/aes256.c:175-189 | and in its second |
| `Gf256.MulXtime` | kernel/crypto/aes256.c:175-189 | multiplying by x may be moved from one factor to the other, for all bytes |
| `Gf256.MulAssoc` | kernel/crypto/aes256.c:175-189 | multiplication is associative |
| `Gf256.MulComm` | kernel/crypto/aes256.c:175-189 | and commutative |
| `Gf256.UnmixMix` | kernel/crypto/aes256.c:192-219 | the inverse mixing matrix undoes the mixing matrix on every column |
| `AesTables.InvSboxSbox` | kernel/crypto/aes256.c:13-50 | the second substitution table inverts the first on every byte |
| `AesSbox.SboxIsStandard` | kernel/crypto/aes256.c:13-30 | each bit of the first table is the affine sum of section 5.1.1 of FIPS-197 of the bits of the inverse of the argument in the field, 0 standing for 0 |
| `AesSbox.HasInverse` | kernel/crypto/aes256.c:13-30 | every byte but 0 has such an inverse |
| `AesTables.NoFixedPoint` | kernel/crypto/aes256.c:13-30 | the first table moves every byte |
| `AesRound.UnshiftShift` | kernel/crypto/aes256.c:121-172 | the inverse row rotation undoes the rotation |
| `AesRound.UnmixMixColumns` | kernel/crypto/aes256.c:192-219 | inverse column mixing undoes mixing on every block |
| `AesRound.AddTwice` | kernel/crypto/aes256.c:96-104 | adding a round key twice changes nothing |
| `AesState.SubstituteBytes` | kernel/crypto/aes256.c:107-118 | in place, every byte replaced by its table entry |
| `AesState.RotateRows` | kernel/crypto/aes256.c:121-145 | in place, row r rotated left by r |
| `AesState.UnrotateRows` | kernel/crypto/aes256.c:148-172 | in place, row r rotated right by r |
| `AesState.MixAll` | kernel/crypto/aes256.c:192-204 | in place, every column mixed |
| `AesState.UnmixAll` | kernel/crypto/aes256.c:207-219 | in place, every column unmixed |
| `AesState.AddKey` | kernel/crypto/aes256.c:96-104 | in place, the four key words added to the columns |
| `AesCipher.BackwardMeetsForward` | kernel/crypto/aes256.c:243-319 | decryption passes through the states of encryption in the middle of every round |
| `AesCipher.DecryptEncrypt` | kernel/crypto/aes256.c:224-334 | one block: decryption undoes encryption for any number of rounds and any round keys |
| `AesCipher.CbcRoundTrip` | kernel/crypto/aes256.c:224-334 | chaining: if the block cipher is undone, so is every whole number of chained blocks |
| `AesBlock.EncryptState` | kernel/crypto/aes256.c:249-266 | in place, the rounds of encryption |
| `AesBlock.DecryptState` | kernel/crypto/aes256.c:303-322 | in place, the rounds of decryption |
| `AesBlock.EncryptBuffer` | kernel/crypto/aes256.c:240-273 | the chained encryption of the buffer, also in place; the rest of the output untouched |
| `AesBlock.DecryptBuffer` | kernel/crypto/aes256.c:292-331 | the chained decryption of the buffer, also in place |
| `AesKeys.ExpandKey` | kernel/crypto/aes256.c:62-93 | the round keys are those of the recurrence, for the three key lengths |
| `AesBytes.ShiftRowsAt` | kernel/crypto/aes256.c:121-145 | byte by byte: row r of column c comes from column c + r modulo 4 |
| `AesBytes.MixColumnsAt` | kernel/crypto/aes256.c:192-204 | byte by byte: {02}, {03}, 1 and 1 times the four bytes of the column from row r on |
| `AesBytes.AddRoundKeyAt` | kernel/crypto/aes256.c:96-104 | byte r of column c is added to byte r of key word c |
| `AesBytes.RotWordAt` | kernel/crypto/aes256.c:77 | byte r of the rotated word is byte r + 1 modulo 4 |
| `AesBytes.SubWordAt` | kernel/crypto/aes256.c:78-81 | every byte of the word goes through the table |
| `AesBytes.RoundConstantIsPower` | kernel/crypto/aes256.c:53-55 | entry n of the constants is x to the n - 1 in the field |
| `AesStandard.ExpandedAt` | kernel/crypto/aes256.c:62-93 | every byte of the expanded key is the one of the byte rule of section 5.2 of FIPS-197, with the substitution in the middle for every key size |
| `AesStandard.StandardAt` | kernel/crypto/aes256.c:62-93 | every byte of the standard schedule is the one of that rule, with the substitution in the middle for 256 bits only |
| `AesStandard.CipherIsStandard` | kernel/crypto/aes256.c:243-266 | for every key of 128 and 256 bits and every block the cipher is that of section 5.1 of FIPS-197, written byte by byte from rows, columns and key bytes; for 192 bits it is the same with the one substitution more in its key bytes |
| `AesStandard.CbcBlock` | kernel/crypto/aes256.c:240-273 | block j of the output is the block cipher of the bytewise sum of block j of the input and block j - 1 of the output, or the vector |
| `AesStandard.EncryptedBlock` | kernel/crypto/aes256.c:240-273 | so for 128 and 256 bits every block of the output is the standard cipher of that sum |
| `AesKeys.RoundConstantInTable` | kernel/crypto/aes128.c:22-46 | the round-constant table is never read beyond its end |
| `Aes.Encrypt` | kernel/crypto/aes128.c:61-114 | refused exactly for null pointers and lengths not a multiple of 16; otherwise the chained encryption, a null vector being zeros |
| `Aes.Decrypt` | kernel/crypto/aes128.c:119-171 | the same for decryption |
| `Aes.DecryptsWhatWasEncrypted` | kernel/crypto/aes192.c:67-177 | decryption recovers the plaintext for every key of the three sizes, every vector and every whole number of blocks |
| `Aes.SourceScheduleIsStandard` | kernel/crypto/aes192.c:22-51 | the key schedule agrees with section 5.2 of FIPS-197 if and only if the key does not have 192 bits, for every key |
| `EncryptedView.IvOfInjective` | kernel/fs/disk_encryption.c:35-44 | different block numbers give different vectors |
| `EncryptedView.OpenSeal` | kernel/fs/disk_encryption.c:49-108 | opening a sealed block gives the block back, enabled or not |
| `EncryptedView.IvIsVector` | kernel/fs/disk_encryption.c:35-44 | byte i of the vector is byte i of the block number in base 256 for i below 8, the first xor 0x5a, and 0 above |
| `EncryptedView.ViewReplace` | kernel/fs/disk_encryption.c:151-188 | sealed blocks written inside the wrapper are seen as the blocks, and the header is kept |
| `EncryptedView.ViewWrapped` | kernel/fs/disk_encryption.c:151-188 | what a request starting at the last block number does to header and blocks |
| `DiskEncryption.GenerateIv` | kernel/fs/disk_encryption.c:35-44 | the vector of a block number |
| `DiskEncryption.EncryptedDisk.constructor` | kernel/fs/disk_encryption.c:208-264 | a wrapper of one block fewer than the device |
| `DiskEncryption.EncryptedDisk.Read` | kernel/fs/disk_encryption.c:49-78 | block n of the plain array, fails exactly outside it; on the raw device, the AES-256 decryption of block n + 1 under the vector of n, or that block itself when encryption is off |
| `DiskEncryption.EncryptedDisk.Write` | kernel/fs/disk_encryption.c:83-108 | replaces block n of the plain array, keeps the header; on the raw device, block n + 1 becomes the AES-256 encryption of the buffer under the vector of n, or the buffer itself when encryption is off, and no other block changes |
| `DiskEncryption.EncryptedDisk.ReadBlocks` | kernel/fs/disk_encryption.c:113-146 | for every start and count the range of the plain array; accepted exactly inside it or when the request comes round to the header; block by block the decryption of the raw blocks under the vectors of their numbers |
| `DiskEncryption.EncryptedDisk.WriteBlocks` | kernel/fs/disk_encryption.c:151-188 | the same exact acceptance; accepted or not, which blocks of the plain array the request replaces, and that the raw device holds there the encryption of each block of the buffer under the vector of its number and is unchanged elsewhere |
| `DiskEncryption.HeaderSafeIff` | kernel/fs/disk_encryption.c:178-186 | an accepted write keeps the header whatever it writes if and only if start plus count does not wrap |
| `DiskEncryption.HeaderOverwritten` | kernel/fs/disk_encryption.c:178-186 | the failing family: from the last block number on, some content changes the header |
| `DiskEncryptionRun.ServeAll` | kernel/fs/disk_encryption.c:49-188 | every run of requests, wrapping ones included, answers as a header and a plain array of blocks and leaves them as the run on those values does |
| `DiskEncryptionRun.HeaderKept` | kernel/fs/disk_encryption.c:49-188 | a run without a multi-block write from the last block number never writes the header |
| `DiskEncryptionRun.UnwrappedIsArray` | kernel/fs/disk_encryption.c:113-188 | a request that does not wrap reads and replaces a range of the plain array, or does nothing |
| `DiskEncryptionRun.ManyIsOneByOne` | kernel/fs/disk_encryption.c:151-188 | a multi-block write is its single-block writes in turn |
| `Sha256Spec.GapIsLeast` | kernel/crypto/sha256.c:183-195 | the padding is the least that completes a chunk |
| `Sha256Spec.PaddedIsStandard` | kernel/crypto/sha256.c:183-207 | a byte string is a padding of the message in the sense of section 5.1.1 of FIPS 180-4 (marker, fewest zeros that fill chunks, eight bytes that stand for the bit length) if and only if it is the padded message and the message has fewer than 2^61 bytes |
| `Sha256Spec.PaddedIsWhole` | kernel/crypto/sha256.c:183-207 | the padded message is a whole number of chunks, so the fold drops no byte |
| `Sha256.DigestIsBigEndian` | kernel/crypto/sha256.c:215-221 | reading the digest as eight big-endian words gives the hash |
| `Sha256Spec.FoldConcat` | kernel/crypto/sha256.c:154-178 | folding whole chunks and then the rest is folding the message |
| `Sha256.ProcessBlock` | kernel/crypto/sha256.c:71-120 | the compression function, with the constants of the context |
| `Sha256.ExtendWords` | kernel/crypto/sha256.c:83-85 | the message schedule |
| `Sha256.RunSteps` | kernel/crypto/sha256.c:98-110 | the sixty-four steps |
| `Sha256.Context.constructor` | kernel/crypto/sha256.c:125-149 | an empty context absorbs the empty message, from the initial hash and with the constants of the source |
| `Sha256.Context.Update` | kernel/crypto/sha256.c:154-178 | the context absorbs exactly the data, for any length |
| `Sha256.Context.Final` | kernel/crypto/sha256.c:183-224 | the digest is that of the fold over the padded message |
| `Sha256Stream.FinishInOne` | kernel/crypto/sha256.c:183-209 | the length fits: one last chunk completes the fold |
| `Sha256Stream.FinishInTwo` | kernel/crypto/sha256.c:189-209 | the length does not fit: two last chunks complete the fold |
| `Sha256Roots.ConstantIsCubeRoot` | kernel/crypto/sha256.c:22-39 | constant i is the first 32 bits of the fraction of the cube root of the i-th prime, as section 4.2.2 of FIPS 180-4 asks, if and only if i is not 55 |
| `Sha256Roots.InitialIsSquareRoot` | kernel/crypto/sha256.c:136-143 | each of the eight initial words is the first 32 bits of the fraction of the square root of the i-th prime (section 5.3.3) |
| `Sha256Standard.ChChooses` | kernel/crypto/sha256.c:46-48 | on any set of bits: y where x is set, z where it is clear |
| `Sha256Standard.MajAgrees` | kernel/crypto/sha256.c:50-52 | on any set of bits: what the first two agree on |
| `Sha256Standard.MajTurns` | kernel/crypto/sha256.c:50-52 | turning the three round changes nothing |
| `Sha256Standard.BigSigma0Bit` | kernel/crypto/sha256.c:54-56 | bit i is the sum of bits i + 2, i + 13 and i + 22 modulo 32 |
| `Sha256Standard.BigSigma1Bit` | kernel/crypto/sha256.c:58-60 | bit i is the sum of bits i + 6, i + 11 and i + 25 modulo 32 |
| `Sha256Standard.SmallSigma0Bit` | kernel/crypto/sha256.c:62-64 | bit i is the sum of bits i + 7 and i + 18 modulo 32 and of bit i + 3 if there is one |
| `Sha256Standard.SmallSigma1Bit` | kernel/crypto/sha256.c:66-68 | bit i is the sum of bits i + 17 and i + 19 modulo 32 and of bit i + 10 if there is one |
| `Sha256Standard.ScheduleStart` | kernel/crypto/sha256.c:75-80 | the first sixteen words are the bytes of the chunk in order |
| `Sha256Standard.CompressionIs` | kernel/crypto/sha256.c:87-119 | the eight variables are the last four terms of two sequences, each term from the four before it, and the hash grows by the last four of each |
| `Sha256Standard.StandardConstants` | kernel/crypto/sha256.c:22-39 | with 0x682e6ff3 in place 55 all sixty-four constants are those of the standard |
| `Sha256Standard.CompressionDiffers` | kernel/crypto/sha256.c:22-39 | the source and those constants compress every chunk from every hash to different values |
| `Sha256Standard.ShortHashDiffers` | kernel/crypto/sha256.c:183-224 | so every message of fewer than 56 bytes has another hash than the standard gives it |
| `Primes.NthPrimeIs` | kernel/crypto/sha256.c:22-39 | the i-th prime, counted by the primes before it, is the one listed, for the first sixty-four |
| `Sha256.HashPieces` | kernel/crypto/sha256.c:154-224 | for every way of cutting a message into updates the digest is that of the fold over the padded whole |
| `Editor.EnsureCapacity` | apps/editor/editor.c:119-127 | capacity at least what is required, contents and length kept |
| `Editor.InsertInLine` | apps/editor/editor.c:409-425 | the character inserted at the column, inside the capacity, terminator kept |
| `Editor.DeleteInLine` | apps/editor/editor.c:440-452 | the character before the column removed, terminator kept |
| `Editor.AppendLine` | apps/editor/editor.c:456-465 | one line appended to another, inside the capacity |
| `Editor.CutLine` | apps/editor/editor.c:495-508 | a line cut at the column |
| `Editor.Buffer.InsertChar` | apps/editor/editor.c:409-432 | insertion at the cursor's place in the flat text |
| `Editor.Buffer.DeleteChar` | apps/editor/editor.c:435-475 | deletion before the cursor's place, across line ends; nothing at the very beginning |
| `Editor.Buffer.InsertLine` | apps/editor/editor.c:478-511 | insertion of a newline at the cursor's place |
| `Editor.Buffer.MoveCursor` | apps/editor/editor.c:519-539 | the move on the flat text: same column or end of the line above or below, then one left or right within the line |
| `Editor.Buffer.MoveToLineStart` | apps/editor/editor.c:542-545 | to the start of the line in the flat text |
| `Editor.Buffer.MoveToLineEnd` | apps/editor/editor.c:548-551 | to the end of the line in the flat text |
| `Editor.Buffer.Save` | apps/editor/editor.c:385-406 | writes the lines joined by newlines |
| `Editor.Buffer.Load` | apps/editor/editor.c:328-382 | the lines of the file, one more than its newlines; the cursor is not moved |
| `Editor.SaveAndReload` | apps/editor/editor.c:328-406 | loading what was saved gives the same lines |
| `EditorText.SplitJoin` | apps/editor/editor.c:328-406 | lines without newlines are the lines of their text |
| `EditorText.JoinSplit` | apps/editor/editor.c:328-406 | the lines of a text join to the text |
| `EditorText.SplitHasNoNewlines` | apps/editor/editor.c:328-382 | the lines of a text hold no newline, so that lines and text determine each other |
| `EditorDoc.PutIsInsert` | apps/editor/editor.c:409-432 | insertion in a line is insertion in the flat text at the flat offset |
| `EditorDoc.BreakIsInsert` | apps/editor/editor.c:478-511 | breaking a line inserts a newline in the flat text |
| `EditorDoc.EraseIsDelete` | apps/editor/editor.c:435-475 | erasing in a line or joining lines deletes one character of the flat text |
| `EditorDoc.ClimbIsUp` | apps/editor/editor.c:522-526 | a line up is the flat text's line above |
| `EditorDoc.DescendIsDown` | apps/editor/editor.c:527-532 | a line down is the flat text's line below |
| `Editor.Run` | apps/editor/editor.c:409-551 | every run of typing, erasing, breaking and moving is the run on the flat text |
| `Calendar.SecondsInjective` | kernel/fs/fat32_utils.c:65-104 | no two valid stamps are the same second |
| `Calendar.DayNumberInjective` | kernel/fs/fat32_utils.c:76-97 | no two dates are the same day |
| `Calendar.MonthLengths` | kernel/fs/fat32_utils.c:130-134 | months of 31 and 30 days in turn, beginning again in August, February what the year leaves |
| `Calendar.RangeEnds` | kernel/fs/fat32_utils.c:99-103 | the end of 2107 in Unix seconds |
| `FatTime.DateToUnix` | kernel/fs/fat32_utils.c:65-104 | the seconds of the fields, for every date word whose month the table covers |
| `FatTime.FieldsLayout` | kernel/fs/fat32_utils.c:65-77 | the date word is year, month and day and the time word hour, minute and halved second, in that order from the top, with four bits of month, five of day, six of minute and five of halved second |
| `FatTime.ReadingIsSeconds` | kernel/fs/fat32_utils.c:65-104 | for a valid stamp that is its time since 1970, counted by the calendar year by year |
| `Calendar.SecondsIsUnix` | kernel/fs/fat32_utils.c:99-103 | the constant of the source is the time from 1970 to 1980 |
| `FatTime.UnixToDate` | kernel/fs/fat32_utils.c:109-153 | from 1980 to 2107 a valid stamp of the time rounded down to an even second |
| `FatTime.FindYear` | kernel/fs/fat32_utils.c:117-127 | the year that holds the day |
| `FatTime.FindMonth` | kernel/fs/fat32_utils.c:130-145 | the month and day within the year |
| `FatTime.DateRoundTrip` | kernel/fs/fat32_utils.c:65-153 | writing undoes reading for every valid date and time |
| `FatTime.UnixRoundTrip` | kernel/fs/fat32_utils.c:65-153 | reading undoes writing up to the odd second, for every time from 1980 to the end of 2107 |
| `Raster.DrawLine` | kernel/graphics/graphics.c:42-76 | exactly max(dx, dy) + 1 points from one end to the other, one step along the longer side each, all within half a pixel |
| `Raster.Turn` | kernel/graphics/graphics.c:64-74 | one turn of the loop keeps to the line |
| `Raster.EndsAt` | kernel/graphics/graphics.c:61-63 | the endpoint is reached at the last turn and not before |
| `Raster.ErrorFits` | kernel/graphics/graphics.c:65-73 | the doubled error term stays in an int when twice the longer side does on a straight line, and otherwise when three times the longer side less twice the shorter does |
| `Raster.DrawCircle` | kernel/graphics/graphics.c:139-165 | one column a point; up to the diagonal -py <= px^2 + py^2 - r^2 < py; radius 0 is one point |
| `Raster.NearestRow` | kernel/graphics/graphics.c:152-164 | such a row is the exact one rounded to the nearest |

## Left out

- Fat32File.File.Write: writes that pass the end of the file, because that path replaces the buffer without writing it back, so reading back does not hold there.
- BigNumDiv.Div: one object for both outputs; modular exponentiation and inverse, primality, RSA and ECC on top of it are not modelled.
- Paging.PageTables.MapPage4K: a 4 KB mapping inside an existing 2 MB mapping, which the source would follow as if it were a table.
- PagingSetup.SetupPageTables: kernel images above 2 GB and frame buffers in the upper half.
- FatTime.DateToUnix: month fields 14 and 15, for which the source reads past its month table.
- FatTime.UnixToDate: says nothing about the date given for times before 1980 or after 2107.
- Raster.DrawLine: sides for which the bound of `ErrorFits` does not keep the doubled error term in an int; clipping and the pixel store.
- Raster.DrawCircle: radii above 0x3ffffffe; mirroring into the eight octants, clipping and the pixel store.
- DiskEncryption.EncryptedDisk.WriteBlocks: counts of 2^55 blocks or more, for which the size of the buffer for the sealed blocks overflows.
- DiskEncryptionRun.ServeAll: multi-block writes of that size, for the same reason.
- Editor.Buffer.InsertLine: automatic indentation is off.
- Editor.Buffer.InsertChar: newline characters, for which the editor has its own operation; 32-bit overflow of capacities.
- Editor.Buffer.Load: does not move the cursor, so a shorter file can leave it outside; the source loads into new buffers.
- Fresh memory has zeros where the source has arbitrary bytes; no result depends on them.
- Destroying a port, the call-and-reply operation and capability checks on ports.
- Device errors, failure of memory allocation outside the ports, and locking inside the file systems.
- Directory entries, opening, creating and naming of files; the write-back of directory entries.
- Other file systems, SHA-512, key derivation, random numbers and the dispatch between ciphers and hashes.
- Editor undo, selection, highlighting and rendering; desktop, terminal, drivers and start-up beyond the page tables.
- Access control lists, permissions, input buffer and error stack, which would only add easy members.
