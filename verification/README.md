# Firmware state, modelled and proved in Dafny

The main-board firmware keeps several pieces of state that have to agree with something simpler: bytes in flash with
a queue, a half-written image with a list of blocks, indices into a ring with a byte stream, timer registers with a
safety limit, memory blocks with their owners, a retained memory area with a list of entries. This project models
that code and proves the agreement, for every input and over every run. Run `dafny verify dfyconfig.toml` in this
directory to check all of it.

Where the code works on values the model is made of functions and lemmas. Where it changes things in place there is
a class with the same fields; its methods are proved equal to a function on values, and the theorems are about that
function. Where bytes are split and joined, products and quotients are written as repeated addition and subtraction
(`Division`, where they are proved to be `*`, `/` and `%`), which keeps proofs quick.

## The pieces

**Storage FIFO** (`RecordFormat`, `Recovery`, `Fifo`, `ByteLevel`, `FifoRuns`, `PushOnFlash`, `Crash`,
`TornHeaders`, `PowerLoss`, `NorFlash`, `FlashDevice`, `Storage`). A partition holds freed bytes, then records, then
a tail. `Laid` says which queue of byte strings that is, `Holds` also that the tail is erased. The write block is
any of 1, 2, 4 or 8 bytes, the partition has any size from a header up. Push appends, peek returns the oldest record
byte for byte, free drops it. In front of an erased tail every write lands on erased bytes or zeroes a header. In
any bytes a boot finds the first header it visits that is a whole record, CRC included, and the first that is unused
(`RecoverFindsFirst`), and a peek delivers nothing whose CRC is wrong (`PeekExactly`); `ByteLevel` says so in plain
numbers. The CRCs themselves are remainders of polynomial division (`CrcRemainder`). A reboot finds both indices
again from bytes alone *if and only if* the freed bytes are walked over undisturbed, the unused tail is one the scan
looks at, and it begins with an unused header slot (`RecoverExactly`). The theorems point at places where the code
does less than its description promises:

- behind a stored record a tail of one to eight bytes is never looked at, so a reboot moves the write index to the
  end of the partition (`ShortTailMovesWriteIndex`). If and only if it is exactly eight bytes, freeing all records,
  which are all read in order (`ShortTailDelivers`), leaves a reader stuck in front of the erased header slot
  (`EightByteTailSticksExactly`, `EightBytesStick`) until the next reboot, which erases the area if the freed bytes
  are walked over undisturbed (`RebootEndsStuck`). Meanwhile the flush thread turns without a pause
  (`StuckFlushSpins`);
- payload bytes of a freed record are scanned as if they were headers, and eight bytes 0xFF are enough to end the
  scan in front of the records that are left (`FreedPayloadEndsScan`);
- a push that power loss interrupts in its body leaves no visible record at first, but its bytes stay. On the
  internal flash of the STM32, which holds the partition of the Pearl board, the next push is refused if and only if
  one of its blocks meets a byte other than 0xFF among them and is not all zeros; then the area is reset and the
  whole queue is lost. `LostQueue` is a run of four steps that loses a stored record;
- a push that is taken in spite of them may end in front of bytes of the interrupted record. A reboot then takes
  those for the next header: besides the other two conditions both indices come back if and only if the bytes where
  that header will be read as unused before the push (`PushRecoversExactly`, `TornPushExactly`). In `GhostRecord`
  they are the image of a record, and the reboot finds a record that nobody has pushed.

The serial flash of the Diamond board is written byte by byte and refuses nothing: it keeps the bits that are one in
the old and in the new byte. There a push over torn bytes appends the record that reads back, if its CRC is that of
the record to be stored, and else erases the area (`NorPushExactly`).

With write blocks below eight bytes a header can be torn as well. A push stopped in its header is then found as done
or not done if and only if the fields that are missing read as they should anyway (`HeaderTornExactly`); two bytes
are enough to move the write index to the end of the partition (`TornPushMovesWriteIndex`). A free stopped in its
header is found as done under the usual conditions on what is left of the header (`FreeTornExactly`), but at the
front of the partition a single zero byte loses the whole queue and, with blocks of one or two bytes, six zero bytes
hide it (`TornFreeHidesRecord`).

`PowerLoss` runs pushes, frees and reboots with power losses in the body and the header of a push, the erase of a
refused push, the header write of a free and the erase behind it. What is stored is what was accepted, minus what
was freed, minus what a refused push or a lost first header took with it, as long as each reboot meets bytes that
can be recovered in the sense above.

A record above 65535 bytes would lose its size (`PushAppendsExactly`). That needs a partition of more than 64 KiB;
on the 4 and 8 KiB partitions of the boards such a record is refused as an invalid parameter.

**Store and flush** (`PubSubSteps`, `PubSub`, `PubSubLimits`). Messages that cannot be sent are stored and flushed
later, while publishers go on storing. Every interleaving of their steps is a run of acts. Over such a run, what was
handed over, followed by what is stored, is what was accepted, and the record that is freed is the one that was
peeked, *if and only if* no store is refused while records are stored (`RunsLoseNothingExactly`). On an erased tail
none is refused (`CleanRunsLoseNothing`). An interrupted push leaves a tail that is not erased, and in `FreedUnsent`
a refusal between peek and free makes the thread drop a younger record that nobody has sent. When the thread stops
in front of a record that has to wait, the next flush peeks that record again (`ComesBack`).

The transport is given the size of the whole record, so four bytes from behind the payload go out with it
(pubsub.c:175-179); `Carries` says so. To a plain CAN remote a stored message of 61 to 64 bytes is therefore refused
as too long and freed unsent, although it could have been published directly (`RefusedForSurplusExactly`).

**UART framing** (`UartParser`, `Ring`, `UartRx`). The in-place parser over the ring finds the messages a simple
parser finds in the byte stream. They do not depend on how the stream was cut into receive events *if and only if*
no empty message is among them, which for a sender means that no payload but the last is empty
(`SenderIndependence`): an announced empty payload is emitted or skipped depending on whether a byte follows it
(`CutBehindHeader`). A queued payload stays in the ring until the bytes received after it reach round to it.

**Firmware update** (`SectorMath`, `DfuSteps`, `DfuProof`, `DfuRefusal`, `DfuTransfer`, `Dfu`, `DfuImage`).
Producer, writer thread and check request are parties of a step system with two semaphores and one shared buffer.
There is exactly one token, whatever is sent. The other results hold for every sender whose announced size does not
wrap round the 32-bit size check to a size that fits, images too large for the slot included: the bytes accepted are
in flash or in the buffer; every byte written lies in the slot, was erased in this transfer and not written since;
after the last block the slot holds all blocks, padded. The image check computes page by page the CRC-32 of exactly
header, body and the TLV area behind them (`CheckCoversImage`); behind a protected TLV area it does not look for
another one. What the checks of the code let through:

- the size check is right if and only if its product does not wrap round to a size that fits (`SizeCheckExactly`,
  `SizeCheckWraps`);
- a block that passes the parameter check goes into a transfer if and only if its number is below the count
  announced with the first block (`TakenExactly`); others are taken after the end and never written;
- a refused transfer leaves the flash alone if and only if the sender had no block checked that is due on its own
  (`RefusalIsFinalExactly`). `LateBlockIsWritten` is a run in which such a block ends up in the slot. Before that
  write a progress message divides by the announced count, which is then zero (dfu.c:217-220): in a build with
  logging at information level the run ends there. The default level leaves the message out, and so does the model;
- a check that is requested while no transfer is finished answers success without checking anything (`CheckAsync`).

**Camera timer** (`TimerSettings`). Two setters validate frame rate and LED on-time and derive timer registers with
wrapping 32-bit arithmetic. After any sequence of calls the light is eye-safe, the registers divide the clock
exactly, nothing wrapped, and the pulse lies where it has to in the period.

**CAN transmit pipeline** (`CanTx`, with the semaphores of `Kernel`). Producers, a message queue and a sender share
a pool of blocks. Each block has one owner, whoever holds a block finds room in the queue, and frames go out in
order with the bytes the callers passed.

**Bootloader log** (`SharedData`). Adding entries with a duplicate check over a walked byte area keeps it parseable.
The duplicate check works exactly for types that fit their bit fields (`RepeatRefusedExactly`), and an add that
answers success has added its entry exactly if the size fits its field (`OkMeansAddedExactly`). The two differ only
for an entry of 65532 bytes or more in a memory of more than 64 KiB; `LongEntryVanishes` is one that is written and
never counted.

## Assumptions

- A critical section, or the code between taking and giving a semaphore, is one step. Timeouts and the order of
  threads are arbitrary.
- `INVALID_INDEX` is -1, which no partition offset equals. `off_t` and `size_t` offsets inside a partition do not
  overflow.
- Floating point is replaced by exact numbers in the camera timer. The on-time limit of the Pearl board is not a
  binary fraction, so a double may differ from it in the last bit; this is not part of the model.
- MCUboot's TLV macros, `boot_u16_safe_add`, `struct image_header` and Zephyr's `crc16_ccitt` and
  `crc32_ieee_update` are not in the repository. They are modelled as those projects define them: CRC-16 with the
  reflected polynomial 0x8408, CRC-32 with 0xEDB88320 complemented on the way in and out (clause 3.2.9 of IEEE
  802.3).

## Model

| member | source | states |
|---|---|---|
| `RecordFormat.HeaderRoundTrip` | lib/storage/include/storage.h:36-41 | The three fields of a packed header survive its bytes as far as 16 bits hold them |
| `RecordFormat.ImageIsRecord` | lib/storage/storage.c:316-382 | Header, body and padding as push writes them are a record, wherever they land |
| `RecordFormat.RecordBytes` | lib/storage/storage.c:165-178 | The payload bytes of a stored record are the record, without its padding |
| `RecordFormat.ChainUnique` | lib/storage/storage.c:88-98 | The bytes between the two indices determine the queue: no two queues share a layout |
| `RecordFormat.ChainFrame` | lib/storage/storage.c:88-98 | A chain of records depends on nothing but the bytes it fills |
| `Recovery.ChunkedCrcIsCrc` | lib/storage/storage.c:59-73 | The CRC taken in 64-byte chunks is the CRC of the record |
| `Recovery.ScanChain` | lib/storage/storage.c:44-104 | Over a chain of records the loop sets the read index to the first and the write index to the end, unless the strict loop test ends it before |
| `Recovery.ScanFoundMeansSkips` | lib/storage/storage.c:44-104 | If the loop settles on the two indices it has walked over all freed bytes without being stopped or fooled |
| `Recovery.ScanAhead` | lib/storage/storage.c:54-86 | A read index once set stays; indices found lie ahead and leave room for a header |
| `Recovery.RecoverExactly` | lib/storage/storage.c:23-127 | For every partition in use: both indices are found again from bytes alone if and only if freed bytes are walked undisturbed, the tail is one the scan reaches, and it begins with an unused header slot |
| `ByteLevel.ScanFindsFirst` | lib/storage/storage.c:44-104 | The loop leaves the first visited header that is a whole record and the unused one it stops at |
| `ByteLevel.RecoverFindsFirst` | lib/storage/storage.c:23-127 | What a boot finds in any bytes: first whole record, first unused header, a full, an empty or an unusable partition |
| `ByteLevel.FoundIsGenuine` | lib/storage/storage.c:57-76 | A read index that names something names a header 0xFE 0xFE with the CRC of the bytes behind it, and no header visited before is one |
| `ByteLevel.ChunkedCrcOutside` | lib/storage/storage.c:59-73 | A header whose record sticks out of the partition is checked against the 64-byte pieces that lie inside |
| `ByteLevel.PeekExactly` | lib/storage/storage.c:136-197 | Every answer of a peek in any state; success exactly for a whole record inside the partition that has room, and the bytes copied have the CRC of the header |
| `ByteLevel.FreeExactly` | lib/storage/storage.c:199-260 | Eight zero bytes, the index past the record, and an erase exactly if nothing is left to read and fewer than 512 bytes to write |
| `ByteLevel.FitsExactly` | lib/storage/storage.c:290-314 | A record fits if header and bytes, rounded up to whole blocks, end inside |
| `ByteLevel.ImageExactly` | lib/storage/include/storage.h:25-41 | What a push writes, byte for byte |
| `Recovery.ScanStopsAtUnused` | lib/storage/storage.c:80-86 | A write index that the loop finds is an unused header slot |
| `Fifo.BootAligned` | lib/storage/storage.c:99-118 | Whatever is in the partition, the read index that `storage_init` leaves is on a block boundary |
| `Fifo.PushLaid` | lib/storage/storage.c:316-382 | A push that is taken appends, whatever the tail holds |
| `Fifo.FreeLaid` | lib/storage/storage.c:222-254 | A free drops the oldest record, whatever the tail holds |
| `Fifo.ResetHoldsNothing` | lib/storage/storage.c:129-134 | The only queue an erased area stores is the empty one |
| `Fifo.ResetHolds` | lib/storage/storage.c:129-134 | An erased partition is the empty queue, and initialising one gives indices zero |
| `Fifo.PushAppends` | lib/storage/storage.c:262-392 | Push appends to the queue and keeps the layout, for every size and alignment |
| `Fifo.PushAppendsExactly` | lib/storage/storage.c:316-319 | Push appends if and only if the size fits 16 bits; the size stored is the size modulo 2^16 |
| `Fifo.OldestRecord` | lib/storage/storage.c:154-178 | The read index points at the oldest record, and skipping it leaves the others chained |
| `Fifo.DropKeepsLayout` | lib/storage/storage.c:222-240 | Zeroing the oldest header leaves the younger records in place behind freed bytes |
| `Fifo.FreeDrops` | lib/storage/storage.c:199-260 | Free drops the head; an emptied area has at least 512 bytes or the whole partition to write to; free on empty changes nothing |
| `FlashDevice.Flash.Write` | lib/storage/include/storage.h:16-17 | A write is taken exactly if each block is erased or its new content is zero; a refused write may have programmed whole blocks from its start; an unhealthy device may also stop midway or program wrong bits |
| `Storage.StorageArea.RecordCrc` | lib/storage/storage.c:59-73 | The loop computes the chunked CRC |
| `Storage.StorageArea.ScanRecords` | lib/storage/storage.c:44-104 | The do-while loop computes the scan, and ends |
| `Storage.StorageArea.InitArea` | lib/storage/storage.c:23-127 | `init_area` sets the indices to what recovery gives and reports when there is nothing |
| `Storage.StorageArea.ResetArea` | lib/storage/storage.c:129-134 | Everything erased, both indices zero |
| `Storage.StorageArea.Init` | lib/storage/storage.c:447-485 | `storage_init`: recovered indices, or an erased area |
| `Storage.StorageArea.HasData` | lib/storage/storage.c:428-445 | In any state true exactly when the indices differ, and so when the queue is not empty |
| `Storage.StorageArea.IsLastRecord` | lib/storage/storage.c:394-426 | In any state true exactly when a record is at the read index and ends at or behind the write index, and so when the queue has one record |
| `Storage.StorageArea.Peek` | lib/storage/storage.c:136-197 | In any state the answer of `PeekResult`, and on success the bytes behind the header at the read index, which have its CRC; for a stored queue the oldest record byte for byte, or NOT_FOUND, or NO_MEM without a change; a record that fails its check resets the area |
| `Storage.StorageArea.Free` | lib/storage/storage.c:199-260 | Drops the head of the queue, NOT_FOUND when it is empty; in any state on a working device `AfterFree`, and success exactly if the header at the read index is valid |
| `Storage.StorageArea.Push` | lib/storage/storage.c:262-392 | Which error in which case; NO_MEM changes nothing; on any device what lies behind an accepted header has the CRC of the record; on a working device, whatever the tail holds, the outcome is that of `DevicePush`: the record appended and back in the caller's buffer, or refused with the area erased; with a clean tail it is appended |
| `Storage.StorageArea.Store` | lib/storage/storage.c:316-382 | The flash part of a push equals `DevicePush` on a working device; any failure ends in an erased area |
| `Storage.StorageArea.Program` | lib/storage/storage.c:321-373 | Body, read-back check, header in this order: success exactly when the device takes both, and then both are in flash |
| `Storage.StorageArea.WriteBody` | lib/storage/storage.c:321-341 | The two data writes are taken or refused exactly as one write of the padded record would be, and amount to it |
| `PushOnFlash.TwoWritesAsOne` | lib/storage/include/storage.h:16-17 | Block by block, writing whole blocks and then the rest is refused exactly when writing all at once is |
| `PushOnFlash.HoldsAccepted` | lib/storage/storage.c:321-373 | On an erased tail neither data write nor header is refused |
| `FifoRuns.QuietSkips` | lib/storage/storage.c:99-103 | Freed bytes in which no block boundary reads as a live header are walked over block by block |
| `FifoRuns.DropKeepsQuiet` | lib/storage/storage.c:222-240 | Freeing a record whose payload is quiet keeps the freed bytes quiet |
| `FifoRuns.PushStep` | lib/storage/storage.c:262-392 | A push keeps layout, quiet freed bytes and log |
| `FifoRuns.FreeStep` | lib/storage/storage.c:199-260 | So does a free |
| `FifoRuns.RebootStep` | lib/storage/storage.c:447-485 | A reboot in any state of a run finds both indices again |
| `FifoRuns.RunsAreFifo` | lib/storage/storage.c:199-392 | Over every run of pushes, frees and reboots the partition holds what was accepted minus the oldest that were freed |
| `FifoRuns.RunsFromErased` | lib/storage/storage.c:129-392 | The same from an erased partition |
| `FifoRuns.OrdinaryRunsHold` | lib/storage/storage.c:199-392 | Whatever the payloads, a run of pushes and frees is a FIFO |
| `FifoRuns.OrdinaryRunsRecoverExactly` | lib/storage/storage.c:23-127 | After any such run: recovered if and only if freed bytes are walked undisturbed and the tail is seen |
| `FifoRuns.ShortTailMovesWriteIndex` | lib/storage/storage.c:104-116 | With one to eight bytes behind the last record, recovery puts the write index at the end of the partition |
| `FifoRuns.EightByteTailSticksExactly` | lib/storage/storage.c:104-116 | After a reboot and freeing all records, peek and free are stuck if and only if exactly eight bytes are left behind the last record |
| `FifoRuns.RebootEndsStuck` | lib/storage/storage.c:104-111 | The next reboot finds nothing behind the freed bytes and erases the area |
| `FifoRuns.ShortTailDelivers` | lib/storage/storage.c:104-178 | After a reboot on such a tail peeks and frees deliver every stored record in order; behind the last one the reader is stuck with eight bytes left and finds an invalid state with fewer |
| `FifoRuns.EightBytesStick` | lib/storage/storage.c:104-116 | On 24 bytes: push eight bytes, reboot, free, and the reader is stuck |
| `FifoRuns.FreedPayloadEndsScan` | lib/storage/storage.c:82-103 | A freed record of eight bytes 0xFF hides every record behind it from recovery |
| `Crash.TornIsInvisible` | lib/storage/storage.c:321-341 | Any prefix of a record body leaves the layout of the queue as it was |
| `Crash.PushIsAtomic` | lib/storage/storage.c:321-382 | Power lost between any two flash writes of a push: recovery finds the queue before or after it, never part of a record |
| `Crash.FreeIsAtomic` | lib/storage/storage.c:222-254 | Power lost inside a free, the erase of an exhausted area included: the queue before or after it |
| `Crash.TornProgrammable` | lib/storage/storage.c:321-341 | Exactly which data the device takes over the bytes of an interrupted push |
| `Crash.TornPushExactly` | lib/storage/storage.c:321-382 | The next push succeeds if and only if each of its blocks meets no such byte or is all zeros; otherwise it is refused and the queue is lost. A success appends, and a reboot finds both indices if and only if, besides the other two conditions, nothing of the interrupted record shows where the next header will be |
| `Crash.PushRecoversExactly` | lib/storage/storage.c:23-127 | After any push over any tail, the same condition in terms of the bytes before the push |
| `Crash.GhostRecord` | lib/storage/storage.c:54-103 | A run after which a reboot finds a record that was never accepted: power loss behind the body of a push, boot, push of eight bytes |
| `Crash.LostQueue` | lib/storage/storage.c:321-328 | A run that loses a stored record: erase, push, power loss in a push, boot, push |
| `TornHeaders.TornIsRecordExactly` | lib/storage/storage.c:366-367 | With part of its header written a record is in place if and only if the missing fields read as they should |
| `TornHeaders.HeaderTornExactly` | lib/storage/storage.c:366-367 | After power loss inside the header of a push a reboot finds the queue before or after it if and only if, besides what a reboot always needs, the missing fields are there; with 8-byte blocks they always are |
| `TornHeaders.TwoBytesMoveWriteIndex` | lib/storage/storage.c:88-116 | After two header bytes, on up to 64 KiB, a reboot puts the write index at the end |
| `TornHeaders.TornPushMovesWriteIndex` | lib/storage/storage.c:88-116 | The smallest such run: on 64 bytes it comes back as 64 instead of 9 |
| `TornHeaders.FreeTornExactly` | lib/storage/storage.c:222-240 | After power loss inside the header write of a free: nothing found after one byte at the front; otherwise the younger records, if and only if the remains are walked over undisturbed and the tail is seen |
| `TornHeaders.SixZerosHideQueue` | lib/storage/storage.c:82-103 | After six bytes at the front, with blocks of one or two, a reboot sees an empty queue |
| `TornHeaders.TornFreeHidesRecord` | lib/storage/storage.c:222-240 | A run of two pushes and such a free after which the second record is not found |
| `NorFlash.NorPushExactly` | lib/storage/storage.c:343-382 | On flash that only clears bits, over any bytes behind an erased header slot: the record that reads back is appended if and only if its CRC is the expected one, else everything is erased; it is the record pushed exactly if it equals it |
| `NorFlash.AndBits` | lib/storage/storage.c:343-382 | What such flash holds after a write, bit for bit |
| `NorFlash.NorPushAppends` | lib/storage/storage.c:343-382 | In front of an erased tail such flash behaves as the one that refuses |
| `PowerLoss.InterruptedLaid` | lib/storage/storage.c:222-382 | Wherever power fails in the body or header of a push, taken or refused, in the erase after a refusal, in the header write of a free or in its erase, and whatever the tail holds: the bytes are laid out as the queue before or after, or as the empty one |
| `PowerLoss.BootKeeps` | lib/storage/storage.c:447-485 | A boot of recoverable bytes finds that queue, with the same indices if the tail is one the scan reaches |
| `PowerLoss.RunsSurvivePowerLoss` | lib/storage/storage.c:199-485 | Over every run with power losses and any payloads: what is stored is what was accepted, minus what was freed, minus what a refused push or the loss of the first header took |
| `PowerLoss.RunsRecoverExactly` | lib/storage/storage.c:23-127 | At the end of any such run: both indices recovered if and only if freed bytes are walked undisturbed, the tail is seen and it begins with an unused header slot |
| `PubSub.Remotes.IsStarted` | main_board/src/pubsub/pubsub.c:123-132 | True exactly for a remote in the table |
| `PubSub.Remotes.SubscribeAdd` | main_board/src/pubsub/pubsub.c:239-261 | Fails exactly when the table is full of others; loses nobody; lists nobody twice |
| `PubSubSteps.FreeKeeps` | main_board/src/pubsub/pubsub.c:201-206 | The record that is freed is the one that was peeked and handed over, or a too large one |
| `PubSubSteps.StoreKeepsExactly` | main_board/src/pubsub/pubsub.c:329-346 | A store loses nothing if and only if it does not reach the flash, is taken, or meets an empty queue |
| `PubSubSteps.PeekOfQueue` | lib/storage/storage.c:136-197 | Whatever the tail holds, a peek gives the oldest record, NO_MEM if it is longer than the entry, or NOT_FOUND |
| `PubSubSteps.StepIsSafeExactly` | main_board/src/pubsub/pubsub.c:141-346 | Each step of a publisher or of the thread keeps "handed over plus stored is accepted", except exactly a store refused while records are stored |
| `PubSubSteps.LossStays` | main_board/src/pubsub/pubsub.c:141-346 | No later step makes up for a record that was lost |
| `PubSubSteps.RunsLoseNothingExactly` | main_board/src/pubsub/pubsub.c:141-346 | Over every interleaving of stores with peek, delivery and free, any number of flushes and any tail: nothing is lost if and only if no store is refused while records are stored |
| `PubSubSteps.CleanRunsLoseNothing` | main_board/src/pubsub/pubsub.c:141-346 | From an erased tail no store is refused, the tail stays erased and nothing is ever lost |
| `PubSubSteps.DestinationInNumbers` | main_board/src/pubsub/pubsub.c:45-49 | The destination is the first four bytes of a record, little-endian |
| `PubSubSteps.StopsExactly` | main_board/src/pubsub/pubsub.c:152-215 | Which step ends the thread: nothing or an invalid state at the peek, a remote not subscribed, an answer that says come back later |
| `PubSubSteps.DeliveryExactly` | main_board/src/pubsub/pubsub.c:201-215 | Which answers free the record and which leave it |
| `PubSubSteps.ComesBack` | main_board/src/pubsub/pubsub.c:170-211 | After the thread has stopped in front of a record the next flush peeks the same one |
| `PubSubSteps.NothingIsTooLarge` | main_board/src/pubsub/pubsub.c:160-163 | If what is stored fits an entry, nothing is skipped in such a run: every record that left the queue was handed over |
| `PubSubSteps.StuckFlushSpins` | main_board/src/pubsub/pubsub.c:149-163 | In front of a stuck area the thread turns any number of times without a change or a pause |
| `PubSub.StoreMessage` | main_board/src/pubsub/pubsub.c:329-346 | The record pushed is destination and encoded message; on a working device the outcome is that of `DevicePush` if it fits and no change otherwise; with a clean tail it is appended exactly when it fits; the caller learns it was not published |
| `PubSub.Publisher.Publish` | main_board/src/pubsub/pubsub.c:329-346 | The code of a store is the store step in any state, with destination and message as the record; a forced store answers success exactly if the record was accepted |
| `PubSub.Publisher.PeekNext` | main_board/src/pubsub/pubsub.c:149-168 | The code of the peek, with its switch, is the peek step in any state |
| `PubSub.Publisher.Deliver` | main_board/src/pubsub/pubsub.c:170-215 | Subscription check, frame and the switch on the answer are the delivery step; a record is delivered exactly if its remote is in the table |
| `PubSub.Publisher.FreeSent` | main_board/src/pubsub/pubsub.c:201-206 | The code of the free is the free step in any state |
| `PubSub.Publisher.FlushStored` | main_board/src/pubsub/pubsub.c:141-221 | The loop of the thread, with any publishers before each of its steps, is a run of exactly its own acts, which goes on until the thread stops or answers or messages run out, with every message that fits an entry stored in order; it loses nothing exactly if no store is refused while records are stored, and never from an erased tail |
| `PubSubLimits.FreedUnsent` | main_board/src/pubsub/pubsub.c:149-206 | A run that frees an accepted record nobody has handed over, because a store is refused between peek and free |
| `PubSubLimits.RefusedForSurplusExactly` | main_board/src/pubsub/pubsub.c:175-206 | A stored message for a plain CAN remote is refused for its size, and freed, where direct publishing would not be refused if and only if it has 61 to 64 bytes |
| `Ring.Index` | lib/uart_messaging/uart_messaging.c:90-91 | The index modulo the ring size is one conditional subtraction |
| `Ring.SliceOfSlice` | lib/uart_messaging/uart_messaging.c:119-122 | A part of a slice of the ring is the slice from a later index |
| `Ring.SliceStays` | lib/uart_messaging/uart_messaging.c:119-122 | A payload stays as long as the next bytes do not reach round to it; the first that does overwrites its start |
| `Ring.SliceStaysLong` | lib/uart_messaging/uart_messaging.c:119-134 | The same over any number of later receive events |
| `UartParser.ParseInTwo` | lib/uart_messaging/uart_messaging.c:94-153 | Parsing a stream in two parts, left-overs in front of the second, is parsing it whole |
| `UartParser.RestIsStable` | lib/uart_messaging/uart_messaging.c:135-147 | Left-over bytes yield nothing until more arrive |
| `UartParser.ChunkIndependence` | lib/uart_messaging/uart_messaging.c:83-153 | The messages of a stream are the same for every way of cutting it if and only if none of them is empty |
| `UartParser.SenderIndependence` | lib/uart_messaging/uart_messaging.c:83-153 | For a sender of payloads that a header can announce: if and only if no payload but the last is empty |
| `UartParser.NoiseIsSkipped` | lib/uart_messaging/uart_messaging.c:146-152 | Bytes without a magic are passed over, and what follows them is found |
| `UartParser.CutBehindHeader` | lib/uart_messaging/uart_messaging.c:112-152 | A stream of five bytes whose messages depend on the cut |
| `UartParser.RoundTrip` | lib/uart_messaging/uart_messaging.c:94-134 | Parsing framed payloads yields the payloads and leaves nothing over |
| `UartParser.RoundTripInChunks` | lib/uart_messaging/uart_messaging.c:83-153 | The same however the stream is cut |
| `UartRx.Receiver.RxReady` | lib/uart_messaging/uart_messaging.c:83-153 | The callback queues the positions of the messages in the unread bytes, in order, as far as the queue has room; how many bytes count as unread, an overrun included |
| `UartRx.EnqueueExactly` | lib/uart_messaging/uart_messaging.c:44 | Six messages wait at most, and none is dropped while there is room |
| `UartRx.Receiver.DetectMessages` | lib/uart_messaging/uart_messaging.c:94-153 | The loop over the ring finds what the parser finds, and ends |
| `UartRx.Receiver.Receive` | lib/uart_messaging/uart_messaging.c:67-160 | Event after event the payloads found are those of the whole stream so far, at any ring offset; where the new bytes went |
| `UartRx.BufReadCircular` | main_board/src/runner/runner.c:2009-2044 | Copies the next bytes of the ring, around its end if need be, and returns the next position |
| `UartRx.ReadsAreConsecutive` | main_board/src/runner/runner.c:2009-2044 | Successive reads of a queued message are consecutive slices of its payload |
| `DfuProof.LoadKeeps` | lib/dfu/dfu.c:81-133 | A block in order is appended to what was accepted and never finds the buffer full; behind the last block flash is not touched |
| `DfuProof.EraseAndWrite` | lib/dfu/dfu.c:178-242 | A due buffer is erased for and written without an error, and its bytes extend what is in the slot |
| `DfuProof.RoomToWrite` | lib/dfu/dfu.c:194-213 | The sector decision erases all a write needs, also across a boundary, and never past the slot |
| `DfuProof.ConsumeMiddle` | lib/dfu/dfu.c:148-256 | 64 bytes move from the buffer to the slot, the rest to the front |
| `DfuProof.ConsumeLast` | lib/dfu/dfu.c:181-192 | The last write completes the image with its padding |
| `DfuProof.AnnouncedTurn` | lib/dfu/dfu.c:148-256 | A turn of the thread on an image that fits writes without an error and finishes exactly with the last block |
| `DfuProof.OversizedTurn` | lib/dfu/dfu.c:159-176 | A turn on an image that does not fit clears everything and touches no flash |
| `DfuProof.OrphanTurn` | lib/dfu/dfu.c:159-242 | A turn on a block without a transfer writes at the start of the slot and no further |
| `DfuProof.TokenIsKept` | lib/dfu/dfu.c:57-352 | Every step of every party, with any sender, keeps exactly one token |
| `DfuProof.OneToken` | lib/dfu/dfu.c:57-352 | So does every run |
| `DfuProof.StepIsSafe` | lib/dfu/dfu.c:60-352 | Every step keeps the invariant, for every sender whose announced size the check judges rightly |
| `DfuProof.RunsAreSafe` | lib/dfu/dfu.c:60-352 | So does every interleaving |
| `DfuProof.EndToEnd` | lib/dfu/dfu.c:60-256 | For every interleaving and every such sender, too large images included: offset plus buffered bytes are the bytes accepted until the last write; then the slot holds the blocks of the image, padded; every write inside the slot, on bytes erased in this transfer and not yet written |
| `DfuProof.RequestIsChecked` | lib/dfu/dfu.c:329-352 | From a check request until the thread takes its turn, whatever is sent, the image is the finished one and the CRC the requested one |
| `DfuProof.RejectedExactly` | lib/dfu/dfu.c:66-72 | Which blocks the parameter check lets through: the first, or the successor while a transfer is known, numbered up to the count inclusive |
| `DfuProof.StartForgets` | lib/dfu/dfu.c:84-99 | A first block starts from the cleared state, except for the bytes in the buffer |
| `DfuProof.LastExactly` | lib/dfu/dfu.c:181-182 | Which block ends a transfer, a count of zero included |
| `DfuProof.LaterWritesAreNotSized` | lib/dfu/dfu.c:159-176 | Only the first write of a transfer is refused for its size |
| `DfuProof.OnlyTheOwnerWrites` | lib/dfu/dfu.c:55-58 | With one token, the shared state changes only in a step of the party that holds it |
| `DfuProof.SizeCheckExactly` | lib/dfu/dfu.c:159-176 | The size check is right if and only if its product does not wrap round to a size that fits; a refusal touches no flash |
| `DfuProof.SizeCheckWraps` | lib/dfu/dfu.c:165-166 | 2^26 blocks of 64 bytes pass it for any slot |
| `DfuRefusal.TakenExactly` | lib/dfu/dfu.c:66-72 | A block that passes the parameter check goes into a transfer if and only if its number is below the announced count |
| `DfuRefusal.FinishedIsFrozen` | lib/dfu/dfu.c:147-264 | After a finished transfer nothing reaches the slot before the next first block, whatever is sent |
| `DfuRefusal.BlockBeyondTheLast` | lib/dfu/dfu.c:66-72 | A block numbered at or behind the count is never written, in any run without a first block |
| `DfuRefusal.RefusalIsFinalExactly` | lib/dfu/dfu.c:159-176 | A refused transfer leaves the flash alone in every run without a first block if and only if no block that is due on its own was checked before |
| `DfuRefusal.LateBlockIsWritten` | lib/dfu/dfu.c:66-74 | A configuration and a run of ten steps that write such a block |
| `DfuTransfer.TurnLoads` | lib/dfu/dfu.c:60-256 | One block submitted and waited for is in, and the last one finishes the transfer |
| `DfuTransfer.TransferArrives` | lib/dfu/dfu.c:60-256 | Every image that fits the slot can be transferred, and then the slot holds it |
| `DfuDevice.Device.DfuLoad` | lib/dfu/dfu.c:60-134 | Parameter error, busy, or the load step with the right semaphore given |
| `DfuDevice.Device.ProcessBlock` | lib/dfu/dfu.c:136-266 | One turn of the thread is the consume step or the check, and frees the token |
| `DfuDevice.Device.WriteBlock` | lib/dfu/dfu.c:148-243 | Size check, padding, erase, write and move of the rest, with each error path, are the consume step |
| `DfuDevice.Device.Fill` | lib/dfu/dfu.c:178-192 | Bytes to write, and 0xFF padding behind the last block |
| `DfuDevice.Device.Advance` | lib/dfu/dfu.c:233-242 | Bytes not written move to the front of the buffer |
| `DfuDevice.Device.CheckAsync` | lib/dfu/dfu.c:329-352 | A check is queued exactly for a finished transfer with the token free; otherwise the token goes back |
| `DfuDevice.Device.SecondaryCheck` | lib/dfu/dfu.c:354-431 | The page loop tiles the image; success exactly when the CRC-32 of header, image and TLV area is the expected one |
| `DfuImage.CheckCoversImage` | lib/dfu/dfu.c:376-428 | With an image at the start of the slot the check succeeds exactly if the CRC-32 of header, body and TLV area is the expected one; magic 0x6907, 0x6908 or none |
| `DfuImage.TransferIsChecked` | lib/dfu/dfu.c:354-431 | After a transfer whose blocks are an image: exactly if the CRC-32 of the bytes sent is the expected one |
| `DfuImage.EmptyIsInvalid` | lib/dfu/dfu.c:370-373 | An image without a body is refused as invalid |
| `DfuImage.TooLongIsInternal` | lib/dfu/dfu.c:400-409 | Sizes that reach beyond the slot are an internal error |
| `DfuDevice.CheckCoversTransfer` | lib/dfu/dfu.c:354-431 | After a finished transfer success depends on exactly the bytes of the blocks sent |
| `Crc.Crc32UpdateAppend` | lib/dfu/dfu.c:399-411 | Page by page CRC-32 updates compose |
| `CrcRemainder.Crc16IsRemainder` | lib/storage/storage.c:60-71 | The register is the remainder of register and message by x^16 + x^12 + x^5 + 1 |
| `CrcRemainder.Crc32IsRemainder` | lib/dfu/dfu.c:399-411 | Complements taken off, the result is the remainder by the generator of IEEE 802.3 |
| `Crc.Crc16Append` | lib/storage/storage.c:60-71 | Chunk by chunk CRC-16 updates compose |
| `TimerSettings.DutyIsLightPerSecond` | main_board/src/optics/ir_camera_system/ir_camera_timer_settings.c:72-75 | The limit compared is a limit on microseconds of light per second |
| `TimerSettings.AcceptedIffEyeSafe` | main_board/src/optics/ir_camera_system/ir_camera_timer_settings.c:61-163 | Both setters accept exactly what is eye-safe, although one compares a fraction and the other a truncated limit |
| `TimerSettings.LongestIsEyeSafe` | main_board/src/optics/ir_camera_system/ir_camera_timer_settings.c:130-139 | The limit compared with is the longest eye-safe pulse |
| `TimerSettings.PrescalerIsCorrect` | main_board/src/optics/ir_camera_system/ir_camera_timer_settings.c:126-128 | Prescaler and period fit 16 bits, divide the clock exactly, and the period is at least 32768 when prescaled |
| `TimerSettings.DelayBelowReload` | main_board/src/optics/ir_camera_system/ir_camera_timer_settings.c:41-49 | The delay is below the period register: the fallback branch is dead |
| `TimerSettings.DelayIsExact` | main_board/src/optics/ir_camera_system/ir_camera_timer_settings.c:34-43 | No 32-bit wrap or underflow; rounding loses less than 100 us and two ticks and adds nothing |
| `TimerSettings.LongestPulse` | main_board/src/optics/ir_camera_system/ir_camera_timer_settings.c:51-57 | The maximum pulse in ticks is shorter than the period, not longer than 7.5 ms and less than 100 us and two ticks shorter |
| `TimerSettings.ScheduleHolds` | main_board/src/optics/ir_camera_system/ir_camera_timer_settings.c:20-58 | Delay plus on-time ends at least 50 us before the next strobe end and at most 151 us and two ticks |
| `TimerSettings.SlowClockFallsBack` | main_board/src/optics/ir_camera_system/ir_camera_timer_settings.c:45-49 | With a clock of 10 kHz the delay reaches the period register and the fallback branch is taken |
| `TimerSettings.StepIsGood` | main_board/src/optics/ir_camera_system/ir_camera_timer_settings.c:61-163 | Each accepted or rejected setting keeps eye safety, registers and schedule |
| `TimerSettings.RunsAreGood` | main_board/src/optics/ir_camera_system/ir_camera_system_hw.c:1280-1322 | So does every sequence of them |
| `TimerSettings.RunsInNumbers` | main_board/src/optics/ir_camera_system/ir_camera_timer_settings.h:9-45 | After any sequence of settings: at most 60 frames per second; pulses of 5 ms and 150 ms of light per second on Pearl, 7.5 ms and 250 ms on Diamond |
| `TimerSettings.SettingsAreKept` | main_board/src/optics/ir_camera_system/ir_camera_timer_settings.c:61-163 | An accepted setting changes its own value, a rejected one nothing |
| `TimerSettings.OrderDoesNotMatter` | main_board/src/optics/ir_camera_system/ir_camera_timer_settings.c:61-163 | Frame rate first or on-time first: accepted alike, and the same timer values |
| `TimerSettings.CameraTimer.SetFps` | main_board/src/optics/ir_camera_system/ir_camera_timer_settings.c:101-163 | The code of the setter; a rejection leaves the settings unchanged |
| `TimerSettings.CameraTimer.SetOnTime` | main_board/src/optics/ir_camera_system/ir_camera_timer_settings.c:61-99 | The code of the setter; a rejection leaves the settings unchanged |
| `CanTx.OwnersKept` | lib/can_messaging/canbus_tx.c:80-171 | Every step moves blocks between owners and loses or doubles none |
| `CanTx.OnlyOwner` | lib/can_messaging/canbus_tx.c:148-165 | Each block is free, held by one producer, in one queue entry or with the sender |
| `CanTx.HolderFindsRoom` | lib/can_messaging/canbus_tx.c:155-165 | Whoever holds a block finds room in the queue: the failure branch of the put is dead |
| `CanTx.NoBlockMeansAllInUse` | lib/can_messaging/canbus_tx.c:151-168 | An allocation fails only while all blocks are in use |
| `CanTx.CopyIsPrivate` | lib/can_messaging/canbus_tx.c:153 | The block a producer copies into is in nobody else's hands |
| `CanTx.StepIsSafe` | lib/can_messaging/canbus_tx.c:80-171 | Every step keeps ownership, accepted is sent plus on its way, and the sending semaphore stays binary |
| `CanTx.RunsAreSafe` | lib/can_messaging/canbus_tx.c:80-171 | In every run of any number of producers: one owner per block, room for holders, frame i handed to the driver has the address, the size and the bytes of message i accepted, and zeros behind |
| `CanTx.SafeIsInOrder` | lib/can_messaging/canbus_tx.c:52-78 | In every safe state the frames sent are the first messages accepted, byte for byte; all of them exactly if nothing is queued or being sent |
| `CanTx.TransmitIsSafe` | lib/can_messaging/canbus_tx.c:126-171 | Every answer: success exactly when the bus is up, the message fits and a block is free; it never reports busy |
| `CanTx.SenderGoesOn` | lib/can_messaging/canbus_tx.c:86-121 | The sender goes on after the timeout if a completion never comes, and at once after a refused frame |
| `CanTx.RoundIsSafe` | lib/can_messaging/canbus_tx.c:86-121 | A round of the thread sends the oldest message not yet sent, byte for byte, and frees its block |
| `CanTx.Pipeline.AsyncTx` | lib/can_messaging/canbus_tx.c:126-171 | The code of the call, over the slab buffer, is those steps |
| `CanTx.Pipeline.SendNext` | lib/can_messaging/canbus_tx.c:105-120 | The code of a round; the frame it builds is the oldest message not yet sent |
| `SharedData.ParseFindsEntries` | bootloader/src/shared_data.c:83-117 | Reading the area back entry by entry yields the entries |
| `SharedData.WalkIsExact` | bootloader/src/shared_data.c:57-81 | The duplicate walk finds a duplicate exactly if there is one, and else lands exactly on the end |
| `SharedData.AppendAdds` | bootloader/src/shared_data.c:97-123 | The three writes append one entry and update the total |
| `SharedData.AddKeeps` | bootloader/src/shared_data.c:31-124 | An add succeeds exactly when the type is new and the entry fits; a rejected add leaves the entries, and every byte if the size has room in 16 bits |
| `SharedData.AddAnswers` | bootloader/src/shared_data.c:44-95 | Which answer in which case: overwrite, general error for a total beyond 16 bits, overflow for one beyond the memory |
| `SharedData.EntryInBytes` | bootloader/src/shared_data.c:83-106 | The bytes of an entry |
| `SharedData.TotalInBytes` | bootloader/src/shared_data.c:113-117 | The first four bytes of an area with entries: 0x16 0x20 and the total |
| `SharedData.RunsAreWellFormed` | bootloader/src/shared_data.c:31-124 | After any sequence of adds the area parses as exactly the entries added, and they fill the recorded total |
| `SharedData.RunsAreDistinct` | bootloader/src/shared_data.c:57-81 | With types in range no type occurs twice |
| `SharedData.RepeatRefusedExactly` | bootloader/src/shared_data.c:75-84 | A repeated add is refused if and only if its type fits the bit fields |
| `SharedData.OutOfRangeRepeats` | bootloader/src/shared_data.c:75-84 | A type that does not is stored twice as the same one |
| `SharedData.OkMeansAddedExactly` | bootloader/src/shared_data.c:84-95 | An add that answers success has added its entry if and only if its size with the header fits 16 bits |
| `SharedData.LongEntryVanishes` | bootloader/src/shared_data.c:84-115 | An entry of 65532 bytes is written, answered with success, never counted, and accepted again |
| `SharedData.RetainedLog.FindDuplicate` | bootloader/src/shared_data.c:57-81 | The loop is the walk |
| `SharedData.RetainedLog.AddData` | bootloader/src/shared_data.c:31-124 | The code of the call is the add step |

## Left out

- Storage.StorageArea.Free: on a device with write blocks below 8 bytes a failing write may zero half a header; then nothing is said about the queue.
- FifoRuns.RunsAreFifo: asks for quiet payloads and no reboot on a short tail; `PowerLoss.RunsSurvivePowerLoss` asks for neither, but that each reboot meets recoverable bytes. Empty records are refused by push and left out of runs.
- PowerLoss.RunsSurvivePowerLoss: an erase interrupted before it has passed the first header, and erase orders other than from the front on, are not modelled. A run ends where a reboot meets bytes that cannot be recovered; `RunsRecoverExactly` says which those are.
- Crash.PushIsAtomic: a header torn inside its own write is not among the images; `HeaderTornExactly` says when the same holds for it.
- Crash.FreeIsAtomic: the header write is one step, see `FreeTornExactly`; the erase of an exhausted area is interrupted from the front on; other erase orders are not modelled.
- NorFlash.NorPushExactly: for blocks of one byte, as that flash has; the class over the storage area is proved for flash that refuses.
- PubSub.StoreMessage: the encoding of the message (nanopb) and the choice whether to store are parameters.
- PubSub.Publisher.FlushStored: ISO-TP and CAN transports are one answer per attempt; the pause between attempts is left out; flash works.
- UartRx.Receiver.Receive: an event whose bytes overrun the unread ones is excluded; `RxReady` says what the callback then takes for unread.
- UartRx.BufReadCircular: a read of a whole full ring from its middle is excluded, as the wrap test does not notice that wrap; a queued message is always shorter than the ring.
- DfuProof.EndToEnd: a sender whose announced size wraps round the size check is left out. Flash operations fail only outside the slot or on bytes not erased.
- DfuProof.OrphanTurn: the progress message before the write divides by a block count of zero; it is compiled out at the default logging level.
- DfuDevice.Device.WriteBlock: the answer when the flash area cannot be opened is left out.
- DfuDevice.Device.SecondaryCheck: failing reads inside the slot, the busy answer while another thread reads the headers and the pauses for the watchdog are left out.
- DfuTransfer.TransferArrives: for a sender that waits after each block; other interleavings are covered by `EndToEnd`.
- DfuProof.OnlyTheOwnerWrites: the callback pointer and its context are not part of the shared state; the thread reads them after it has given the token back.
- TimerSettings.ScheduleHolds: asks for a clock of at least 20 kHz, which the boards exceed by far; `SlowClockFallsBack` shows a slower one breaks it.
- CanTx.RunsAreSafe: the reset while the pipeline runs (canbus_tx.c:222-229) is left out, as it frees blocks that are still held; the data length code is left out, a frame carries its size.
- SharedData.RunsAreWellFormed: asks that the memory or each entry stays below 64 KiB; `OkMeansAddedExactly` shows what happens otherwise.
- SharedData.RetainedLog.AddData: retention writes fail only outside the memory; a checksum over the area is left out.
- Clearing `dfu_state` on activation (dfu.c:306), which does not take the token.
- Kernel objects, logging, flash and CAN drivers, `flash_area_open` in the update thread, and power management.
- Focus and mirror sweeps of the camera system, the strobe counter update, and the busy flags that gate the setters: easy members beside the ones above.
- ISO-TP, mirror trigonometry, lens control, GNSS, voltage publishing, LED drivers, the CLI and Python tools.
