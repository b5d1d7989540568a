# AESD character device and socket server: a verified model

This project models the AESD character device driver and the socket server that uses it, and
proves what they promise. The driver keeps the last N newline-terminated write commands in a
ring of heap blocks. Writes without a newline wait in a staging buffer. A read returns one byte
at the file position. An ioctl seeks to an offset within a numbered command. The server gives
each connection a thread, which writes its packet to the device (or seeks) and sends back what
it then reads, all under one mutex.

One idea holds it together. The ring, the staging buffer, the running size counter and the
kernel heap must always agree with the list of every command ever committed. A reader sees the
concatenation of that list minus an evicted prefix.

| file | content |
|---|---|
| Bytes.dfy | byte strings, commands, concatenation and prefix sums |
| Search.dfy | the offset search, in unbounded integers and in the source's 32/64-bit arithmetic |
| CircularBuffer.dfy | the ring as a class over an array; what any number of adds leaves in its slots |
| Kernel.dfy | kmalloc, krealloc, kfree and memcpy on a set of live blocks |
| DeviceModel.dfy | the device as a list of commands and a staging buffer; one operation at a time |
| Device.dfy | the driver's structure and file operations as a class, proved against DeviceModel |
| Interleaving.dfy | any number of open files over one device; properties of whole runs |
| Lines.dfy | how a stream is cut into writes, and into lines |
| Seek.dfy | where the seek ioctl lands |
| Server.dfy | one connection's transaction on the driver, whatever call fails |
| Connections.dfy | connection threads interleaving under the mutex |
| ServerRuns.dfy | the bytes interleaved threads leave on the device; what a thread does when it runs alone |

The ring's capacity `N` is a symbolic constant between 1 and 254 (the source uses 10; 254 is what
its 8-bit counter allows). Every statement holds for every such capacity.

Failures of the kernel calls (allocation, reallocation, user copies, interrupted locks) are
inputs of the operations, and so is a null user buffer of a read or a write. Fresh memory holds
arbitrary bytes, and freed addresses may be handed out again. The server's own calls (receive,
open, write, ioctl, seeks, reads, send) may each fail too.

## Where the code and its documentation differ

- The search is documented to return NULL past the end of the data. Its running offset is a
  32-bit int, so this holds exactly on the positions of `InRange`. Beyond them a read aliases a
  stored byte or copies from outside an entry (`MachineSearchExactIff`, `ReadRightIff`,
  `LargeOffsetAliases`). Every position below 2^31 is in range.
- The seek ioctl is documented to address the zero-referenced write command. The code sums
  physical slots from slot 0, which is age order for every content exactly when `out_offs` is 0
  (`SeeksRightIffUnrotated`). For one content it is age order exactly when the slot sizes are in
  order (`SeeksRightIffSizesInOrder`).
- A command is meant to be one line. The code commits the staged bytes with the whole write, so
  bytes after a newline stay in the entry (`CommandsAreLinesIff`, `TwoLinesInOneWrite`).
- A read is meant to return at most `count` bytes. The code never looks at `count`, so this holds
  exactly when the read fails, asks for at least one byte, or is at the end
  (`ReadHonoursCountIff`, with the input in `ZeroCountReadDelivers`).
- A failed user copy is meant to be an error. The code overwrites it with 1, so the returned count
  is the number of bytes delivered exactly when the copy succeeds or there is nothing to copy
  (`ReadCountsDeliveredIff`).
- A failed `krealloc` drops the staged bytes and leaves their size behind (`AesdDev.Write`, on the fields); bytes are
  conserved exactly when that does not happen (`WriteConservesIff`).
- The temporary copy of a write is never freed on the append paths, and cleanup does not free the
  staging buffer. A run leaks nothing exactly when each of its writes fails to allocate, fails its
  user copy, or commits alone (`LeakFreeIff`); `Replay` and `Cleanup` count what stays allocated.
- The server is meant to return the full content. It does not check its rewind, and adds the -1 of
  a failed read to the length it sends. A response is right exactly when no read of it failed and
  its rewind did not, or there was nothing to send (`Serializable`, `ServedRightIff`).

## Model

| member | source | states |
|---|---|---|
| Search.LocateCorrect | aesd-char-driver/aesd-circular-buffer.c:20-29 | an offset is found at (entry, in-entry offset) if and only if it is the total size of the entries before plus the in-entry offset; nothing is found if and only if it is past the total |
| Search.MachineSearchesLowBits | aesd-char-driver/aesd-circular-buffer.c:40-137 | for every offset, the 32/64-bit search finds what the unbounded search finds for the low 32 bits, or strays past the end of the first entry |
| Search.MachineSearchExactIff | aesd-char-driver/aesd-circular-buffer.c:40-137 | with entries of at most 2^31 bytes, the machine search and the sign-extended add-back equal the unbounded search if and only if the offset is InRange |
| Search.SmallOffsetsInRange | aesd-char-driver/aesd-circular-buffer.c:40-137 | every offset below 2^31 is searched exactly |
| Search.LargeOffsetAliases | aesd-char-driver/aesd-circular-buffer.c:40 | witness: offset 2^32 finds the first stored byte although it is past the end |
| CircularBuffer.Ring.constructor | aesd-char-driver/aesd-circular-buffer.c:213-216 | init gives an empty reachable ring |
| CircularBuffer.Ring.AddEntry | aesd-char-driver/aesd-circular-buffer.c:150-208 | an add pushes onto a queue of the last N entries and keeps the ring reachable; a full add returns the oldest entry's buffer and size, another returns null and leaves lost_size as it was |
| CircularBuffer.Ring.Find | aesd-char-driver/aesd-circular-buffer.c:30-139 | in every reachable ring the loops, with their 8-bit counters, search the live entries once each in age order from out_offs; the error return is never taken and the unused slot at in_offs is harmless |
| CircularBuffer.FindIsCorrect | aesd-char-driver/aesd-circular-buffer.c:20-139 | for an in-range offset find returns the slot of the entry of a given age and an offset in it if and only if the older entries' sizes plus that offset make the position; NULL if and only if the position is past the end |
| CircularBuffer.Ring.ReachableShape | aesd-char-driver/aesd-circular-buffer.c:189-202 | after any adds in_offs is their number modulo N, out_offs is 0 until full and then in_offs, never ahead of it, unused slots are empty, and the live entries are those of a bounded queue |
| CircularBuffer.RecentIsBoundedQueue | aesd-char-driver/aesd-circular-buffer.c:141-149 | the last min(k, N) items are what a queue that drops its oldest item at N holds after k puts |
| CircularBuffer.SlotsInAgeOrder | aesd-char-driver/aesd-circular-buffer.c:84-135 | for every history, the slots cut at out_offs are the recent entries oldest first; before the ring fills they come first and the rest are empty |
| DeviceModel.VisibleIsStreamSuffix | aesd-char-driver/main.c:232-242 | the ring in age order is the committed stream without its evicted prefix, and buff_size is the stream's length minus the evicted bytes |
| DeviceModel.CommitVisible | aesd-char-driver/main.c:232-245 | a commit appends its bytes to what readers see and, when the ring is full, drops exactly the oldest command |
| DeviceModel.WriteConservesIff | aesd-char-driver/main.c:193-270 | committed plus staged bytes grow by exactly the accepted data if and only if no failed krealloc drops staged bytes and no krealloc starts from a stale size |
| DeviceModel.WriteKeepsFraming | aesd-char-driver/main.c:198-262 | while krealloc succeeds, no staged byte is a newline, every command holds one, and a command's first newline is inside the write that committed it |
| DeviceModel.ReadsTheStream | aesd-char-driver/main.c:106-117 | a read of an in-range position gives the byte of the stream at evicted plus position, and end of file exactly past the end |
| DeviceModel.ReadRightIff | aesd-char-driver/main.c:106-117 | for a device of at most 4 GiB reads are right if and only if the position is InRange |
| Device.AesdDev.constructor | aesd-char-driver/main.c:416-423 | module init gives an empty device that owns no block |
| Device.AesdDev.Write | aesd-char-driver/main.c:139-270 | on the fields: a write returns its length if and only if buffer, kmalloc, copy and lock are good and krealloc succeeds or the data holds a newline with no staging buffer; each failure has its own error code and leaves ring, counters and size field alone, only a failed krealloc dropping the staging buffer; newline-free data goes behind the staged bytes; a newline adds one entry whose block holds the staged bytes and then the data, and clears the staging. All of it refines the model's write, ring blocks staying live and distinct and each abandoned block counted |
| Device.AesdDev.WriteLocked | aesd-char-driver/main.c:198-267 | the part under the lock: commit alone, join and commit, or stage |
| Device.AesdDev.Grow | aesd-char-driver/main.c:211-221 | krealloc and copy: the staged bytes followed by the data in one owned block, or on failure no buffer, a stale size and one more abandoned block |
| Device.AesdDev.CommitEntry | aesd-char-driver/main.c:232-245 | the entry enters the ring, buff_size stays exact, the evicted block is freed once and the staging buffer is cleared |
| DeviceModel.ReadHonoursCountIff | aesd-char-driver/main.c:60-63 | a read returns, and delivers, at most count bytes if and only if it fails early, count is at least 1, or the position is at the end (or, for delivery, the user copy fails) |
| DeviceModel.ZeroCountReadDelivers | aesd-char-driver/main.c:106-117 | witness: a read of 0 bytes at any visible position below 2^31 returns 1 and delivers a byte |
| DeviceModel.ReadCountsDeliveredIff | aesd-char-driver/main.c:109-116 | the returned count is the number of bytes delivered if and only if the user copy succeeds or there is nothing to copy; the copy's error is never returned |
| Device.AesdDev.Read | aesd-char-driver/main.c:65-122 | a null buffer gives -EINVAL, an interrupted lock -ERESTARTSYS, and else 1 or 0 as the ring's search finds the position or not, whatever the count; the byte delivered is the one at the offset found in the heap block of the slot found; the position moves by the returned count |
| Device.AesdDev.Llseek | aesd-char-driver/main.c:279-297 | the kernel helper is asked with the current buff_size; the position becomes the one it chose, or stays on its error or an interrupted lock |
| Device.AesdDev.AdjustFileOffset | aesd-char-driver/main.c:306-333 | the position becomes the sizes of the slots before the command number plus the offset, if and only if the offset is inside that slot's entry; refused pairs and interrupted locks leave it and return their error; this is the model's seek target |
| Device.AesdDev.Cleanup | aesd-char-driver/main.c:444-446 | every block of the ring is freed once, unused slots are skipped, and exactly the staging buffer and the abandoned blocks stay |
| Device.AesdDev.LiveBlocks | aesd-char-driver/main.c:203-245 | the live blocks number the stored commands, plus the staging buffer, plus the abandoned blocks |
| Interleaving.Replay | aesd-char-driver/main.c:380-388 | any list of operations on any open files, with any failures, leaves device, positions and replies as the model's run says, with every live block accounted for and no block freed twice |
| Interleaving.EveryReadIsOfTheStream | aesd-char-driver/main.c:100-121 | in every interleaving each in-range read returns the byte at evicted plus f_pos of the stream as it stands at that step, and 0 if and only if f_pos is at or past buff_size |
| Interleaving.WholeHistory | aesd-char-driver/main.c:199-267 | from init, with krealloc succeeding, the visible bytes are the stream from the evicted point and stream plus staged bytes are every accepted byte in order |
| Interleaving.RunConserves | aesd-char-driver/main.c:199-267 | conservation of bytes and framing over every run from any clean state |
| Interleaving.RunOnlyCommits | aesd-char-driver/main.c:199-267 | no run, failures included, changes a committed command |
| Interleaving.AppendOnlyBeforeEviction | aesd-char-driver/main.c:232-242 | until more than N commands are committed, every later view of the device extends every earlier one |
| Interleaving.ReaderCollectsSlice | aesd-char-driver/main.c:100-121 | a reader interleaved with any writers and other readers, before eviction, collects exactly the slice of the final log from where it started to where its position ends |
| Interleaving.ReaderInStreamOrder | aesd-char-driver/main.c:100-121 | under any interleaving, evictions and failures included, the bytes given to a file that is only read from are bytes of the stream at strictly increasing places, and the places passed over number exactly the bytes evicted meanwhile |
| Interleaving.LeakFreeIff | aesd-char-driver/main.c:147-265 | a run leaves no block behind if and only if each write fails to allocate, fails its user copy, or holds a newline and finds nothing staged |
| Lines.ChunkingInvariance | aesd-char-driver/main.c:199-268 | newline-free writes and then any write, on one file, end in the same device and the same file positions as one write of their concatenation |
| Lines.WritesRun | aesd-char-driver/main.c:199-268 | a run of successful writes on one file moves that file by all their bytes, whatever the chunking, and no other |
| Lines.LinesUnique | aesd-char-driver/main.c:126-138 | the lines of a stream are the only way to cut it into newline-terminated lines and a newline-free rest |
| Lines.LinesJoin | aesd-char-driver/main.c:126-138 | the lines followed by the rest give the stream back |
| Lines.CommandsAreLinesIff | aesd-char-driver/main.c:126-138 | the commands are the lines of the stream if and only if each write has a newline only as its last byte; the ring then holds the last N lines and the staging buffer the rest |
| Lines.ChunkingsAgree | aesd-char-driver/main.c:126-138 | two such chunkings of one stream leave the same ring contents, visible bytes and staged bytes |
| Lines.TwoLinesInOneWrite | aesd-char-driver/main.c:199-207 | witness: one write of two lines is one command |
| Seek.SeekBijection | aesd-char-driver/main.c:317-329 | in every state, rotated or not, accepted pairs map one-to-one onto the positions below buff_size |
| Seek.SeekRefusedIff | aesd-char-driver/main.c:318-321 | a seek is refused if and only if the command number is not stored or the offset is past the entry in that slot |
| Seek.SeekMonotone | aesd-char-driver/main.c:323-329 | accepted pairs land in the order of slots and then of offsets |
| Seek.SeekTargetFull | aesd-char-driver/main.c:317-329 | in a full ring, rotated or not, a seek is refused if and only if the offset is past the command in that slot, and else lands behind all the bytes of the newest out_offs commands and then of the oldest ones, as far as the slot, plus the offset |
| Seek.SeekTargetUnfilled | aesd-char-driver/main.c:317-329 | before the ring fills a seek lands behind all the bytes of the older commands |
| Interleaving.SeekThenRead | aesd-char-driver/main.c:100-121 | in any state, rotated or not, an accepted in-range seek and then a read of that file give the visible byte at the target and move the position one past it |
| Seek.UnrotatedSeekRight | aesd-char-driver/main.c:323-329 | when out_offs is 0 every seek goes to the offset in the command of that age, or is refused when there is none |
| Seek.SeekReadRoundTrip | aesd-char-driver/main.c:323-329 | when out_offs is 0, the code's find and read at a seek's in-range target give the slot, offset and byte asked for |
| Seek.FindSeekRoundTrip | aesd-char-driver/main.c:323-329 | when out_offs is 0, seeking to what the code's find returns for any visible in-range position gives the position back |
| Seek.FindAfterSeekIff | aesd-char-driver/main.c:323-329 | in every state, the code's find at an accepted in-range target returns the slot of the w-th oldest command and offset o if and only if that command has such an offset and the slots before slot w hold as many bytes as the w oldest commands |
| Seek.SeeksRightIffSizesInOrder | aesd-char-driver/main.c:317-329 | in one state every seek is in age order if and only if the slots, in slot order, have the sizes of the commands in age order |
| Seek.SeeksRightIffUnrotated | aesd-char-driver/main.c:317-329 | after k commits seeks are in age order for every content if and only if out_offs is 0 |
| Seek.RotatedSeekWrong | aesd-char-driver/main.c:317-329 | witness: in every rotated ring one command longer than the others is reached under the wrong number |
| Server.Drain | server/aesdsocket.c:276-286 | on a quiet device the one-byte read loop ends and fills the buffer with exactly the bytes from the position to the end, or up to an interrupted read, whose -1 it subtracts; it passes the end of the buffer if and only if there are more bytes than it holds |
| Server.ServeTransacts | server/aesdsocket.c:192-297 | the device a transaction leaves and how it ends, in the outcomes of its calls and the bytes to read back, for every request and every failure |
| Server.ConnectionThread | server/aesdsocket.c:192-297 | from any device, with any of its calls failing: a seek, or a packet whose open, allocation, copy or lock fails, leaves the device as it was, and an accepted packet adds its bytes once; the transaction exits, overruns readbuf, sends -1 bytes, gives up or responds each exactly when the calls and the visible bytes say so, with the bytes sent named; and it is Serve's |
| Server.ServedRightIff | server/aesdsocket.c:192-297 | a request gets the response it should if and only if it is not refused, the calls it needs succeed, no read is interrupted, the response fits readbuf, and the rewind succeeds or there is nothing to read |
| Connections.StepKeeps | server/aesdsocket.c:178-297 | every step of every thread keeps mutual exclusion, the mutex order of served requests, the serial device and what each thread has read |
| Connections.Serializable | server/aesdsocket.c:178-297 | over every interleaving, with any call failing, each response sent is the one its request gets when requests are served one at a time in mutex order, each thread at most once, if and only if no read of it failed and its rewind did not, or there was nothing to send; it always fits readbuf |
| Connections.SerialWhenFree | server/aesdsocket.c:178-297 | whenever the mutex is free the device is what the serial execution leaves |
| ServerRuns.ServedBytesOnDevice | server/aesdsocket.c:178-297 | in every run in which no recv, write or send fails, the device holds its old bytes and then the bytes of the served packets, each once, in mutex order; old commands stay, each packet with a newline makes one more, and no staged byte is a newline |
| ServerRuns.ServedWereReceived | server/aesdsocket.c:179-187 | each served request was received by its thread, and the order requests are served in is that in which threads took the free mutex |
| ServerRuns.SoloTransacts | server/aesdsocket.c:178-297 | for every request and every way its calls can go, a thread running alone in the interleaved system reaches the device and the ending of the transaction |
| ServerRuns.HolderCanFinish | server/aesdsocket.c:178-297 | in every reachable state a mutex holder that has not left, and whose response fits readbuf, can run to the end: it sends, releases the mutex and is done |
| Connections.MutualExclusion | server/aesdsocket.c:179-295 | at most one thread is between taking and releasing the mutex |
| Connections.OverrunOnlyWhenTooLong | server/aesdsocket.c:242-286 | an uninterrupted drain loop runs past readbuf if and only if there are more than 100 bytes to read back |
| Connections.StepPossibleIff | server/aesdsocket.c:178-300 | in every reachable state some thread can step if and only if the process has not exited, no thread has left without releasing the mutex, and some thread is not done; a thread that left that way holds the mutex |

## Left out

- Device.AesdDev.Llseek: fixed_size_llseek is a kernel function outside this model; what it does with the size it is given is an input. The server's SEEK_SET 0 and SEEK_CUR 0 are taken to give 0 and the current position unless their lock is interrupted.
- Server.Drain: assumes less than 2 GiB visible and a position below 2^31, and stops at the first byte that does not fit the buffer, since writing past it has no defined meaning. Copies to the server's own buffer do not fail.
- Server.ConnectionThread: assumes that what is visible, staged and received together stays below 2 GiB.
- Connections.Serializable: a packet's write succeeds only while the device stays below 2 GiB. What happens after a thread has passed the end of readbuf, or asked to send -1 bytes, is not modelled: such a thread takes no further step.
- ServerRuns.SoloTransacts: starts from a device on which no krealloc has failed since the last commit, and which stays below 2 GiB.
- ServerRuns.ServedBytesOnDevice: says nothing of runs in which a thread left after a failed recv, write or send; RunOnlyCommits and StepKeeps still hold of the log there.
- Interleaving.RunConserves: runs in which krealloc fails are outside it; WriteConservesIff says exactly what such a write loses.
- Sizes, counters and positions are unbounded naturals: wrap-around of a 64-bit size_t or loff_t needs 2^64 bytes. The arithmetic of the search is modelled at its own widths.
- A zero-byte reallocation is an ordinary empty block, not the kernel's shared zero-size address.
- Operations on one open file are whole steps; two threads racing on the unlocked position update of a shared file are not modelled.
- Mid-operation kernel scheduling inside the device lock: each locked section is one step.
- The stack bytes beyond a short packet that the command-string comparison may look at, and sscanf parsing: a request arrives already classified.
- Module registration, open and release, ioctl number decoding, debug printing.
- Socket setup, daemonising, signals, the timer thread and the thread list of the server.
- server/other_person.c, finder-app, the examples and all scripts.
