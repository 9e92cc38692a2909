# Verified model of the Cisco FPGA driver algorithms

The Cisco FPGA drivers are mostly probe and sysfs code around eight real algorithms. This
project models those eight in Dafny and proves what they are for.

| file | what it models |
|---|---|
| `Arbitration.dfy` | two CPUs, any number of threads each, sharing one I2C block: a transition system with one step per register access, and its safety, ownership and courtesy properties over all runs |
| `ArbitrationCode.dfy` | `obtain_arbitration` and `release_arbitration` as methods with counters and a polling loop; every exit is a path of the automaton above; the wait bound and the statistics |
| `RegTrace.dfy`, `RegTraceFifo.dfy` | the register trace ring: a byte buffer that wraps inside headers and payloads, proved to be a bounded queue of whole records for every sequence of calls |
| `MfdBlocks.dfy`, `Mfd.dfy`, `MfdEnds.dfy`, `MfdResult.dfy`, `MfdIdentity.dfy`, `MfdBuilder.dfy` | the block table match, the walk over the FPGA's block table that carves cells, resources and names out of arenas, the interrupt pre-scan, how both scans end, duplicate resolution in place, and what holds of the result and of each cell's name, id and place |
| `I2cRetry.dfy`, `I2cChunks.dfy` | one access of the I2C-EXT block with waiting, error check, reset and retry; messages cut into accesses |
| `I2cTransfer.dfy`, `I2cTransferLaws.dfy`, `I2cExt.dfy` | a whole transfer as a function of what the hardware answers, the theorems about it, and the nested loops of the code, which compute exactly that function |
| `GpioIndex.dfy` | the group and pin scan, the sort with the wrapping comparator, the binary search and the offset table |
| `TableParser.dfy` | the hand-written tokenizer behind word-list attributes |
| `ScratchStrings.dfy` | the store and show pair for strings in the scratch RAM overlay |
| `BitFields.dfy`, `GpioConfig.dfy` | the bit-field laws, and the apply phase of `config_store` built on them |
| `Options.dfy`, `Bytes.dfy` | optional values, bytes and little-endian words |

`dafny verify dfyconfig.toml` checks everything.

## How the outside world appears

- A register access that may fail is a parameter: what it returns, or whether it fails. Time
  is an integer advanced by sleeps; sleeps may be late by any amount.
- The arbitration register is assumed to be a test-and-set on read: a read of zero takes it,
  any other value says it is taken, a write of zero frees it. The code's use of it and the
  warning at `drivers/cisco/msd_xil_regmap.c:27-32` are the evidence. An access that reports
  failure may still have had its effect; the exclusion theorem holds in spite of that.
- Each of the `tainted`, `stuck` and `faulty` fields of the arbitration state is history: no
  step reads it.
- A device on the I2C bus sends one stream of bytes. An access that succeeds takes as many of
  them as it asked for; an attempt or access that fails is taken to consume none.
- Sorting is written out as an insertion sort through the driver's comparator; the kernel's
  own sort is not shown, only its contract matters. The binary search is the kernel's loop.

## Where the code and its comments differ

- `drivers/cisco/i2c-arbitrate.c:94` says that on error ownership is pretended to be taken.
  `arb` is unsigned, so `arb <= 0` on line 95 means `arb == 0` and a failed read makes the
  attempt disputed; `arb < 0` on line 114 never holds, so a failed yield is waited out.
- Two branches enter the bus without a grant: an expired wait, and a failed write of the
  request flag after a first read that was not granted. After those, exclusion ends exactly
  when the peer is on the bus at that moment.
- The trace header keeps payload lengths in 16 bits: walks give back the records exactly when
  every payload is shorter than 65536 bytes.
- `_setup_max_irqs` tests the information block's magic number, not the block's own, so the
  two scans of the block table can disagree; it is proved exactly when.
- The check on the block count comes after an increment in 32 bits, so it also admits the
  count 0xffffffff. With that count there is room for no cell, and the scans read past the
  256 entries of the size table unless a header that ends them, or cannot be read, comes first.
  Headers before version 6 are always rejected.
- A version 5 I2C-EXT block copies up to 512 bytes of an access that asks for at most 256:
  reads are the device's bytes exactly up to 256 bytes there, and the theorem about read
  contents is for transfers within that limit.
- `_scratch_store_str` returns the full length also when a register write failed, and a NUL in
  the text is accepted and cuts it.

## Model

| member | source | states |
|---|---|---|
| Arbitration.MutualExclusion | drivers/cisco/i2c-arbitrate.c:74-202 | in every run of two CPUs with any number of threads, failed peer reads, arbitration reads and arbitration writes included, at most one thread overall is between the return of obtain and the end of release, as long as nobody entered without a grant |
| Arbitration.SectionIsObtainToRelease | drivers/cisco/i2c-arbitrate.c:74-169 | what counts as being on the bus: from the access that ends obtain to the last access of release |
| Arbitration.ExclusionEndsExactly | drivers/cisco/i2c-arbitrate.c:102-131 | from an untainted state a step puts two threads on the bus if and only if it is an unowned entry made while the peer is on the bus |
| Arbitration.TaintIsAnUnownedEntry | drivers/cisco/i2c-arbitrate.c:101-131 | the only unowned entries are an expired wait and a failed request write after a first read that was not granted |
| Arbitration.StepKeepsSafe | drivers/cisco/i2c-arbitrate.c:74-202 | each step keeps: at most one CPU has a grant, a grant means the register is taken, everybody on the bus has one, and only the lock holder is past its lock |
| Arbitration.FailedAccessesAreOpen | drivers/cisco/i2c-arbitrate.c:30-72 | what the exclusion theorem allows a failed access to do: a failed read may have taken the register, a failed write may or may not have freed it or changed the flag |
| Arbitration.TakenExactlyWhenHeld | drivers/cisco/i2c-arbitrate.c:92-126 | in every untainted run without stray takes, the register is taken exactly when one CPU has a grant, never for both |
| Arbitration.PollerIsAdmitted | drivers/cisco/i2c-arbitrate.c:118-126 | no deadlock: a polling thread whose peer has no grant can be granted by its next read, and that read cannot say taken |
| Arbitration.Courtesy | drivers/cisco/i2c-arbitrate.c:83-126 | in every fault-free run, an attempt that starts after the other CPU's request is visible and enters before it does must contain a moment when the register is free and the requester is in its wait loop |
| Arbitration.RunFlagsTruthful | drivers/cisco/i2c-arbitrate.c:101-158 | in every run, until something fails: whoever waits for the bus shows its request flag, and a flag that is up belongs to a thread that waits for the bus or is on it |
| Arbitration.FlagMeansRequest | drivers/cisco/i2c-arbitrate.c:101-158 | the same written out, so a release withdraws the request; and a CPU whose lock is free shows none |
| Arbitration.LoneAttemptIsUndisputed | drivers/cisco/i2c-arbitrate.c:83-99 | in every fault-free run, while the other CPU's lock is free, the peer flag reads as not requested, and the first arbitration read after that is granted and admits the thread at once |
| Arbitration.ExpiryBreaksExclusion | drivers/cisco/i2c-arbitrate.c:128-131 | a concrete run in which an expired wait puts both CPUs on the bus |
| Arbitration.LostRequestBreaksExclusion | drivers/cisco/i2c-arbitrate.c:102-109 | a concrete run in which a failed request write puts both CPUs on the bus |
| ArbitrationCode.Arbiter.ReadArb | drivers/cisco/i2c-arbitrate.c:30-50 | the status of an arbitration read, as the unsigned variable sees it: zero exactly for a grant; errors are counted |
| ArbitrationCode.Arbiter.Obtain | drivers/cisco/i2c-arbitrate.c:74-144 | which of the four exits is taken and why, the exact sequence of register accesses, when the clock ends the wait, and every counter; disputed plus undisputed counts attempts |
| ArbitrationCode.Arbiter.PollLoop | drivers/cisco/i2c-arbitrate.c:118-126 | the loop ends at the first grant or at the first read after the deadline, never earlier |
| ArbitrationCode.Arbiter.RecordWait | drivers/cisco/i2c-arbitrate.c:132-143 | the total stays the sum of the recorded waits, and maximum and minimum stay the largest and smallest of them, the minimum starting at the timeout |
| ArbitrationCode.LargestAndSmallest | drivers/cisco/i2c-arbitrate.c:136-141 | these bound every recorded wait and are attained |
| ArbitrationCode.Arbiter.Release | drivers/cisco/i2c-arbitrate.c:150-169 | the flag is written with 0 first, then the register, whatever fails; a path of the automaton to the unlock, so that what FlagMeansRequest says of a release holds of this code |
| ArbitrationCode.CodeFollowsAutomaton | drivers/cisco/i2c-arbitrate.c:74-144 | the accesses of every exit of the code are a path of the automaton that agrees with what the registers returned and ends on the bus, as owner exactly when the code was granted |
| ArbitrationCode.Arbiter.WaitBound | drivers/cisco/i2c-arbitrate.c:118-126 | at most (timeout - grant) / retry + 2 polls, exactly one if grant exceeds timeout, and at most max(grant, timeout + retry) elapsed apart from the last sleep's lateness |
| RegTrace.Spaces | drivers/cisco/reg_trace.h:78-115 | read space plus write space is size - 1, empty means no read space, and the contiguous space exceeds the true space exactly when the read head is 0, where using it would make a full ring look empty |
| RegTrace.AppendStored | drivers/cisco/reg_trace.h:117-130 | a contiguous copy within the true space appends to the unread bytes, across the wrap of the index |
| RegTrace.SliceInPieces | drivers/cisco/reg_trace.c:54-64 | the first unread bytes lie in at most two pieces, and which |
| RegTrace.SkippedStored | drivers/cisco/reg_trace.h:132-136 | advancing the read head modulo the size drops exactly that many unread bytes |
| RegTrace.DecodeEncode | drivers/cisco/reg_trace.h:19-23 | a header written as bytes reads back |
| RegTrace.HeaderLayout | drivers/cisco/reg_trace.h:19-23 | which bytes hold the time stamp, the operation and the length, low byte first |
| RegTrace.WalkGivesBackRecords | drivers/cisco/reg_trace.c:69-91 | walking the bytes of a list of records gives back that list and leaves nothing if and only if every payload length fits its 16-bit field |
| RegTrace.Ring.Fill | drivers/cisco/reg_trace.h:117-130 | one contiguous copy: how much is copied and what the unread bytes are then |
| RegTrace.Ring.Write | drivers/cisco/reg_trace.h:139-153 | two fills append all the data |
| RegTrace.Ring.Trace | drivers/cisco/reg_trace.h:155-172 | a record is appended whole or nothing at all changes but the overflow flag, and exactly when |
| RegTrace.Ring.Extract | drivers/cisco/reg_trace.c:51-67 | takes the oldest bytes, also across the wrap, or fails and changes nothing |
| RegTrace.Ring.Walk | drivers/cisco/reg_trace.c:69-91 | the callback's arguments, in order, and what is left unread |
| RegTrace.Ring.Reset | drivers/cisco/reg_trace.h:174-186 | drops everything and keeps the largest fill level |
| RegTraceFifo.Run | drivers/cisco/reg_trace.h:155-186 | for every sequence of trace, walk and reset calls the ring delivers exactly what a queue of whole records delivers, and represents it afterwards |
| RegTraceFifo.NothingLost | drivers/cisco/reg_trace.c:69-91 | without a reset, delivered followed by waiting records is what waited at first followed by what was accepted |
| RegTraceFifo.RefusedExactly | drivers/cisco/reg_trace.h:163-164 | the overflow flag is set exactly when a record was refused for want of space since the last reset |
| MfdBlocks.BlkMatch | drivers/cisco/mfd.c:272-291 | the row returned is the first known row that has the id and a filter bit in common with the caller's; if there is none, the first fallback row with such a bit, or the last row, under the id asked for |
| MfdBlocks.NamelessExactly | drivers/cisco/mfd.c:202-291 | a match has no name exactly when no known row fits and the filter selects the passive-slot fallback: blocks that the walk skips |
| MfdBlocks.RowsAreSound | drivers/cisco/mfd.c:202-291 | every match asks for at most one interrupt line, as many as it has bits for, all below 10 |
| Mfd.AddrBound | drivers/cisco/mfd.c:549-558 | the running 32-bit offset never wraps for any admitted table of 16-bit sizes |
| Mfd.ArenaBounds | drivers/cisco/mfd.c:59-91 | after i blocks: cells plus interrupt block at most i, resources at most two per cell plus one, names at most one per cell |
| Mfd.WalkSources | drivers/cisco/mfd.c:556-605 | however the walk ends, the committed cells are exactly the blocks before its stop (the first tail block, or the end) that ask for one, in order, each with its own range, match, name, id and interrupt lines |
| Mfd.WalkSlices | drivers/cisco/mfd.c:310-323 | committed cells own disjoint resource slices |
| Mfd.RangeOf | drivers/cisco/mfd.c:310-313 | each cell starts at the sum of the earlier block sizes times 256 and ends before the next block, unless no block up to it has a size |
| Mfd.RangesDisjoint | drivers/cisco/mfd.c:549-558 | two cells' ranges ascend and are disjoint if and only if some block up to the first of the two has a size |
| MfdIdentity.AddrIsTotal | drivers/cisco/mfd.c:549-558 | a block starts at 256 times the sum of the sizes before it, so the first at 0 and each where the one before it ends |
| Mfd.ScansAgree | drivers/cisco/mfd.c:431-473 | with good magic numbers the pre-scan finds interrupt lines exactly when the walk records an interrupt block |
| Mfd.ScansFind | drivers/cisco/mfd.c:448-587 | which header makes each of the two scans find an interrupt block, whatever the magic numbers |
| Mfd.ScansAgreeExactly | drivers/cisco/mfd.c:448-587 | for all tables of readable headers the two scans agree if and only if: the first interrupt or tail header is an interrupt header with good magic, or at the trusted address, or another block is recorded; or it is a good tail or missing, and no bad header before it is at the trusted address; or it is a bad tail and nothing is recorded |
| Mfd.BadMagicSplitsTheScans | drivers/cisco/mfd.c:448-576 | a concrete table on which they disagree |
| Mfd.LinesHandedOut | drivers/cisco/mfd.c:379-400 | every interrupt resource is a bit of its block's set and below the limit, no two of a cell are equal, and all wanted lines are handed out exactly when there are any lines, also for cells before the interrupt block |
| Mfd.CountAcceptedExactly | drivers/cisco/mfd.c:59-76 | the size check admits exactly counts up to 254, and the one count whose increment wraps |
| Mfd.ResolvedIsUnambiguous | drivers/cisco/mfd.c:607-647 | after resolution no two cells share a name and a fixed id |
| Mfd.ResolvedKeepsExactly | drivers/cisco/mfd.c:607-647 | a fixed id survives exactly when no other cell had the same name and id |
| MfdBuilder.Meta.Configure | drivers/cisco/mfd.c:293-410 | one block: rejected exactly when the cells are full or a child refuses it, with all four cursors unchanged; otherwise the arenas grow by exactly that cell or interrupt block; the new cell has the first child's id, but AUTO without a child, for block id 0 and for names with "-uio" in them, and the name the child asks for |
| MfdBuilder.Meta.AddIrqs | drivers/cisco/mfd.c:379-400 | the find-first-set loop hands out the lowest lines in order |
| MfdBuilder.SetupMaxIrqs | drivers/cisco/mfd.c:431-473 | the pre-scan computes the limit of the first interrupt header before a tail |
| MfdBuilder.WalkBlocks | drivers/cisco/mfd.c:549-605 | the block loop ends in the specified walk state, never outside its arenas |
| MfdBuilder.Meta.ResolveDuplicates | drivers/cisco/mfd.c:607-647 | the in-place pairwise loop gives AUTO to exactly the cells that shared name and original id with another one |
| MfdBuilder.BuildCells | drivers/cisco/mfd.c:475-660 | the whole builder for every 32-bit block count: exactly when it fails, hits a second interrupt block, reads past its size table or succeeds, and what it then returns, which is sound in the sense of MfdResult.ResultIsSound and, with the table under any filter, identified in the sense of MfdIdentity.ResultIsIdentified |
| MfdBuilder.PastTableExactly | drivers/cisco/mfd.c:440-605 | with the count 0xffffffff a scan reads past the size table exactly when all 256 headers can be read and none ends it: for the pre-scan an interrupt or a tail header, for the walk a tail header with good magic |
| MfdBuilder.BuildLong | drivers/cisco/mfd.c:440-605 | with that count the builder has room for no cell: it fails at an unreadable header, reads past the size table, or returns nothing |
| MfdResult.ResultIsSound | drivers/cisco/mfd.c:549-647 | of every image the builder returns, tail block or not: the cells are exactly those of the blocks before the stop that ask for one, with their addresses, names, ranges and interrupt lines, each with the id its block asks for unless another cell of its name has a block that asks for the same; ranges ascend, resource slices are disjoint, lines are below the limit, and no two cells share a name and a fixed id |
| MfdIdentity.ResultIsIdentified | drivers/cisco/mfd.c:202-647 | of every image the builder returns under a filter, from headers, sizes, table and children alone: which blocks are its cells; each cell's range starts at 256 times the sum of the earlier sizes and is as long as its block's size; its name is the first child's, or the matched row's with the child's suffix cut to 19 characters, or the row's; its own id is AUTO for a block that no known row fits and for one without a child at its address, and else the first child's; it has its own id, but AUTO if another cell of that name has the same own id |
| MfdIdentity.AsksExactly | drivers/cisco/mfd.c:345-360 | a block becomes a cell exactly when its header is good and neither the interrupt nor the tail block's, the table knows its id or the filter does not skip unknown blocks, and the first child at its address neither is to be ignored nor expects another block |
| MfdIdentity.AutoExactly | drivers/cisco/mfd.c:401-403 | a named match is always AUTO exactly when no known row fits: no known name has "-uio" in it and every named fallback row has |
| MfdEnds.WalkEndsExactly | drivers/cisco/mfd.c:556-605 | every outcome of the walk, from the headers alone: it fails at an unreadable header, crashes at a second interrupt block and ends at a tail block exactly when nothing before that block stops it, and goes through all blocks exactly when nothing does |
| MfdEnds.MaxIrqsExactly | drivers/cisco/mfd.c:431-473 | the pre-scan fails exactly at the first unreadable header, and finds 10 or 12 lines exactly by the version of the first interrupt header, when no tail header comes before |
| I2cRetry.WaitDone | drivers/cisco/cisco-fpga-i2c-ext.c:104-135 | the polling loop ends as specified for every pattern of reads and sleeps |
| I2cRetry.SuccessMeans | drivers/cisco/cisco-fpga-i2c-ext.c:104-175 | an attempt succeeds if and only if it was started, found idle by a read whose predecessors came in time, and its status has done set and neither timeout nor error |
| I2cRetry.FailureMeans | drivers/cisco/cisco-fpga-i2c-ext.c:104-175 | what each error of an attempt means, exactly: EIO for a failed register access, EBUSY for a block that stays busy past the deadline or an access that is not done, EAGAIN for a timeout bit, else EFAULT for an error bit |
| I2cRetry.WaitEndsExactly | drivers/cisco/cisco-fpga-i2c-ext.c:104-135 | what each outcome of a wait means, exactly: some read that is made finds the block idle, fails, or still finds it busy after the deadline |
| I2cRetry.RetryDiscipline | drivers/cisco/cisco-fpga-i2c-ext.c:155-175 | at most retries + 1 attempts, each failed one followed by reset and interrupt clear, success exactly when the last attempt succeeded, and giving up only after all of them |
| I2cChunks.SplitCarriesMessage | drivers/cisco/cisco-fpga-i2c-ext.c:229-246 | the accesses of a message concatenate to it, none is empty or too long, all but the last are full |
| I2cExt.TailIsWhole | drivers/cisco/cisco-fpga-i2c-ext.c:251-264 | why the tail may be copied with the length of the whole rest |
| I2cChunks.ReadsTrueExactly | drivers/cisco/cisco-fpga-i2c-ext.c:229-283 | reads are the device's bytes for every device if and only if the buffer has 256 bytes or the message at most 256 |
| I2cChunks.OverlongReadIsOldWindow | drivers/cisco/cisco-fpga-i2c-ext.c:229-283 | a longer read into the 512-byte buffer, up to 512 bytes, brings 256 bytes of the device and then what earlier reads left in the window |
| I2cTransferLaws.AccessSucceedsExactly | drivers/cisco/cisco-fpga-i2c-ext.c:155-189 | an access succeeds if and only if its size register is written and its last attempt was started, idle in time, and ended with done and neither timeout nor error; at most retries + 1 attempts, and all of them before giving up |
| I2cTransferLaws.RowErrIsFirst | drivers/cisco/cisco-fpga-i2c-ext.c:229-284 | accesses in a row stop at the first error, which is the row's, and the row succeeds exactly when all do |
| I2cTransferLaws.SendRowOutcome | drivers/cisco/cisco-fpga-i2c-ext.c:229-284 | a write makes the accesses of the cut message up to the first that fails; those that succeed, and only those, are on the wire |
| I2cTransferLaws.ReadRowOutcome | drivers/cisco/cisco-fpga-i2c-ext.c:229-284 | a read succeeds if and only if all its accesses do and every word of it can be read; it then leaves what the accesses brought, one word read for every four bytes begun |
| I2cTransferLaws.ReadRowFailure | drivers/cisco/cisco-fpga-i2c-ext.c:229-284 | a failing read stops at its first failed access, with that access's error, or at the first word that cannot be read; how many accesses and word reads it made, and that the bytes copied are exactly as many first ones of what the whole read would have brought |
| I2cTransferLaws.MessageSucceedsExactly | drivers/cisco/cisco-fpga-i2c-ext.c:191-293 | a message succeeds if and only if the block is idle in time before it, every one of its accesses succeeds, and a read can read every word |
| I2cTransferLaws.MessageMoves | drivers/cisco/cisco-fpga-i2c-ext.c:191-293 | what a successful message puts on the wire or in its buffer, and its length: a block read adds its first byte if the sum stays within the length started with, and every other message keeps its length |
| I2cTransferLaws.MessageFails | drivers/cisco/cisco-fpga-i2c-ext.c:191-293 | a failed message has a prefix of its accesses on the wire and keeps its length; a write keeps its buffer, a read has copied a prefix of what it would have read and touched nothing else |
| I2cTransferLaws.BlockLenBounded | drivers/cisco/cisco-fpga-i2c-ext.c:289-291 | however a message ends, its length stays or grows to at most the length the transfer started with, and the buffer holds it |
| I2cTransferLaws.BlockReadLength | drivers/cisco/cisco-fpga-i2c-ext.c:210-291 | a block read of a message that leaves room reads 32 bytes more than asked and then grows the message by its first byte exactly if that is at most 32; if the sum wraps 16 bits it reads the rest and the length stays |
| I2cTransferLaws.CountExactly | drivers/cisco/cisco-fpga-i2c-ext.c:305-318 | messages run in order up to the first failure; the count comes back if and only if every message succeeds, and otherwise the error of the last one run |
| I2cTransferLaws.TransferDiscipline | drivers/cisco/cisco-fpga-i2c-ext.c:295-319 | the events of a whole transfer are one clear, those of its accesses one after the other and nothing else, in which every failed attempt is followed by a reset and a clear, and a final reset exactly after a failure; at most retries + 1 attempts an access |
| I2cTransferLaws.CountMeansSent | drivers/cisco/cisco-fpga-i2c-ext.c:229-319 | after a successful transfer every write's bytes, cut up, are on the wire, in order |
| I2cTransferLaws.CountMeansDone | drivers/cisco/cisco-fpga-i2c-ext.c:229-319 | after a successful transfer every read's buffer holds the device's bytes, in order, each read going on where the one before it stopped, and a block read's length has its first byte added when the sum stays within the length started with |
| I2cExt.Controller.Retry | drivers/cisco/cisco-fpga-i2c-ext.c:155-175 | the loop does exactly the specified attempts |
| I2cExt.Controller.Access | drivers/cisco/cisco-fpga-i2c-ext.c:177-189 | an access whose size register cannot be written fails without an attempt; otherwise it is the retried attempts |
| I2cExt.Controller.FillChunk | drivers/cisco/cisco-fpga-i2c-ext.c:248-265 | the copy loop moves exactly the chunk into the write window and never past it |
| I2cExt.Controller.DrainChunk | drivers/cisco/cisco-fpga-i2c-ext.c:268-283 | the copy loop copies words up to the first that cannot be read, succeeds exactly when there is none, and changes nothing else of the buffer |
| I2cExt.Controller.SendAll | drivers/cisco/cisco-fpga-i2c-ext.c:229-284 | the chunk loop of a write: every counter, the wire, the events and the error are those of the specified accesses |
| I2cExt.Controller.ReceiveAll | drivers/cisco/cisco-fpga-i2c-ext.c:229-284 | the chunk loop of a read: the same, and the buffer starts with what was copied and is otherwise unchanged |
| I2cExt.Controller.TransferOne | drivers/cisco/cisco-fpga-i2c-ext.c:191-293 | one message does exactly what is specified for it: error, state of the block, buffer and length; the length grows by the first byte exactly after a successful block read with room in which that byte is at most 32 |
| I2cExt.Controller.RunMessages | drivers/cisco/cisco-fpga-i2c-ext.c:305-313 | the message loop, and every message afterwards: as its reply says if it was run, and as before if not |
| I2cExt.Controller.Transfer | drivers/cisco/cisco-fpga-i2c-ext.c:295-319 | the whole call: its result, the state of the block, all events and every message's buffer and length are those of the specified transfer |
| Bytes.UnpackPack | drivers/cisco/cisco-fpga-i2c-ext.c:252-260 | up to four bytes copied into a zeroed word and read back are themselves |
| Bytes.UnpackIsLittleEndian | drivers/cisco/cisco-fpga-i2c-ext.c:252-260 | the word is its bytes, the lowest first |
| GpioIndex.TakenExactlyWhenUsable | drivers/cisco/cisco-fpga-gpio-init.c:226-259 | whatever the group counter says, a word enters the table exactly when it is a usable pin |
| GpioIndex.WordParts | drivers/cisco/gpio.h:122-134 | where group id, pin count and pin id stand in a mem word, and that a word is a usable pin exactly from 0x100 up to 0x7fffff00 |
| GpioIndex.TableListsUsable | drivers/cisco/cisco-fpga-gpio-init.c:218-259 | the table lists exactly the usable words, by ascending offset, each with the id of the last group before it |
| GpioIndex.CompareOrdersExactly | drivers/cisco/cisco-fpga-gpio-init.c:38-45 | the wrapping difference has the right sign if and only if the words are less than 2^31 apart |
| GpioIndex.CompareOrdersPins | drivers/cisco/cisco-fpga-gpio-init.c:38-45 | on table keys, which have bit 31 clear, it is the true difference |
| GpioIndex.Sort | drivers/cisco/cisco-fpga-gpio-init.c:260-260 | sorts in place through the comparator, by permuting |
| GpioIndex.HasDuplicate | drivers/cisco/cisco-fpga-gpio-init.c:262-274 | looking at neighbours finds a duplicate exactly when two entries of the table share a word |
| GpioIndex.SharedExactly | drivers/cisco/cisco-fpga-gpio-init.c:218-274 | which they do exactly when two words of the block are the same usable pin |
| GpioIndex.FindPin | drivers/cisco/cisco-fpga-gpio-init.c:57-71 | for every 32-bit key, also one the comparator misorders, the search hits an entry with that word or there is none |
| GpioIndex.Adapter.Scan | drivers/cisco/cisco-fpga-gpio-init.c:218-259 | the scan fills the specified table, at most 1022 entries, or stops at an unreadable word |
| GpioIndex.Adapter.Init | drivers/cisco/cisco-fpga-gpio-init.c:193-290 | every offset is that of a usable word equal to the pin asked for, whenever there is one, and the invalid mark otherwise; the table is reported exactly when a pin is there twice or an offset is invalid |
| GpioIndex.Adapter.Io | drivers/cisco/cisco-fpga-gpio-main.c:52-67 | the register block of a gpio exactly when its offset is valid |
| TableParser.MatchIsWholeWord | drivers/cisco/cisco-sysfs.c:181-189 | a row matches exactly when it is the whole word here, despite shared prefixes |
| TableParser.WholeWordsExactly | drivers/cisco/cisco-sysfs.c:181-192 | at every word of every text the first matching row is that word's own, if and only if no row with white space in it can be the first to match |
| TableParser.ScanIsSplitLookupFold | drivers/cisco/cisco-sysfs.c:154-205 | for exactly those tables the tokenizer is split at white space, look up, fold: it reaches the end exactly when every word is in the table |
| TableParser.WordsAreTheRuns | drivers/cisco/cisco-sysfs.c:170-200 | the words are the maximal runs of characters other than those with codes 9 to 13, 32 and 160, all of them and in order |
| TableParser.WordsWithChar | drivers/cisco/cisco-sysfs.c:173-187 | a word with one more character before or after it: with one of those characters it is the same word, with any other one longer word |
| TableParser.LastWordDecides | drivers/cisco/cisco-sysfs.c:187-191 | bits covered by a word and touched by no later one have that word's value in the end |
| TableParser.MaskIsTheRows | drivers/cisco/cisco-sysfs.c:187-191 | the mask handed back has a bit exactly when the row of some word up to the first unknown one masks it |
| TableParser.PrintThenScan | drivers/cisco/cisco-sysfs.c:154-205 | printing any list of table words with any white space and parsing it gives back their fold |
| TableParser.SpacedRowMatchesTwoWords | drivers/cisco/cisco-sysfs.c:181-189 | a concrete table, unlike any of the drivers', whose spaced row is taken for two unknown words |
| TableParser.PowerTableIsPlain | drivers/cisco/cisco-fpga-pseq.c:136-148 | the one table stored through the tokenizer is plain and its words differ |
| TableParser.ParseTable | drivers/cisco/cisco-sysfs.c:154-205 | the loops consume the whole buffer or fail as specified, with the specified value, and a mask whose bits are exactly those that the rows of the words mask |
| TableParser.StoreTable | drivers/cisco/cisco-sysfs.c:283-324 | one register write of the folded value exactly when every word is known, and what is returned; for a table of different words without white space, a row's word with a character of code 9 to 13, 32 or 160 before or after it writes that row's value and consumes everything, and with any other character it is accepted only if the longer text is itself a row's word |
| ScratchStrings.AcceptedExactly | drivers/cisco/msd_xil_sysfs.c:345-376 | text without NUL is accepted exactly when it fits, newline included, and a newline is only last; nothing but that newline is dropped |
| ScratchStrings.KeptWholeExactly | drivers/cisco/msd_xil_sysfs.c:345-376 | an accepted buffer is kept whole, up to a last newline, exactly when it has no NUL |
| ScratchStrings.StoreThenShow | drivers/cisco/msd_xil_sysfs.c:285-377 | show after store gives the text without its newline and one newline |
| ScratchStrings.OthersUntouched | drivers/cisco/msd_xil_sysfs.c:360-371 | a store, complete or cut short by a failed write, changes no field apart from its own |
| ScratchStrings.OverlayFieldsIndependent | drivers/cisco/xil.h:164-187 | so every other named field of the overlay keeps its words |
| ScratchStrings.RegisterBlock.Prepare | drivers/cisco/msd_xil_sysfs.c:345-359 | copy, newline search and clearing leave the padded text and account for the whole buffer exactly when it is accepted |
| ScratchStrings.RegisterBlock.StoreStr | drivers/cisco/msd_xil_sysfs.c:324-377 | what is returned and the registers afterwards, also when a write fails |
| ScratchStrings.RegisterBlock.ShowStr | drivers/cisco/msd_xil_sysfs.c:285-322 | the bytes up to the first NUL and a newline, or a read error |
| BitFields.MaskLoBits | drivers/cisco/reg_access.h:17-29 | a field's mask has exactly the bits from lo to hi |
| BitFields.GetAfterReplace | drivers/cisco/reg_access.h:31-49 | what is put into a field is read back, masked to its width |
| BitFields.ReplaceIsTheWord | drivers/cisco/reg_access.h:43-49 | a replace is the one word whose field reads the masked value and whose other bits are the old ones |
| BitFields.OtherFieldStays | drivers/cisco/reg_access.h:43-49 | replacing a field does not disturb a disjoint one |
| BitFields.ReplacesCommute | drivers/cisco/reg_access.h:43-49 | replaces of disjoint fields commute |
| BitFields.UpdateIsReplace | drivers/cisco/reg_access.h:101-106 | update-bits with the field's mask and set value is a replace |
| BitFields.UpdateBitsIs | drivers/cisco/reg_access.h:101-106 | update-bits gives the bits of the mask those of the value and leaves the others |
| GpioConfig.FoldReads | drivers/cisco/cisco-fpga-gpio-sysfs.c:498-517 | the fold succeeds exactly when every value fits its field, and then each field asked for reads its value and every other what it was |
| GpioConfig.FitsExactly | drivers/cisco/cisco-fpga-gpio-sysfs.c:498-512 | a value is in range for a field exactly when some register word has it there |
| GpioConfig.FoldLeavesRest | drivers/cisco/cisco-fpga-gpio-sysfs.c:498-517 | bits apart from the fields asked for stay |
| GpioConfig.NewWordApplies | drivers/cisco/cisco-fpga-gpio-sysfs.c:498-526 | the word written reads back every field asked for and keeps all other bits, except that an input is tristate |
| GpioConfig.WordWritten | drivers/cisco/gpio.h:56-101 | the word written, bit by bit: each of the eight fields at its position has the value asked for or what it was, an input is tristate, and bits 31, 19-12 and 3-0 never change |
| GpioConfig.MatchesExactly | drivers/cisco/cisco-fpga-gpio-sysfs.c:460-495 | the match, bit by bit: group id, pin count and group instance of a word with bit 31 set, pin id and pin instance of one without |
| GpioConfig.IndexIsLowerHalf | drivers/cisco/cisco-fpga-gpio-sysfs.c:432-442 | the gpio index is the lower 32 bits of the number given |
| GpioConfig.GroupRequestsRefused | drivers/cisco/cisco-fpga-gpio-sysfs.c:443-468 | whatever the index resolves is a pin, so a request with group parameters is refused for every gpio |
| GpioConfig.Block.Match | drivers/cisco/cisco-fpga-gpio-sysfs.c:460-495 | accepts exactly the requests that speak of what the mem word is and agree with it |
| GpioConfig.Block.FoldFields | drivers/cisco/cisco-fpga-gpio-sysfs.c:498-517 | the range-check loop computes the fold |
| GpioConfig.Block.Commit | drivers/cisco/cisco-fpga-gpio-sysfs.c:518-535 | which registers are written with what, the result, and the stored word, also when a write fails; for an input the first write, unless it fails, is to clr with bits 5 and 1 set and no other, for an output none is to clr |
| GpioConfig.Block.ConfigStore | drivers/cisco/cisco-fpga-gpio-sysfs.c:427-545 | the result, the writes and the stored word in every case, the clr write of an input included; any mismatch, out-of-range value, unknown pin or failed read writes no register |

## Left out

- Probe and remove functions, device-tree and ACPI lookup, module parameters, debugfs, log output and allocation failures: plumbing around the algorithms.
- Jiffies and 64-bit counter wrap-around, and changes of the timeouts while a wait is running.
- What happens to exclusion after an unowned entry: the release of an unowned thread frees the peer's grant, so nothing is claimed from there on.
- Concurrent use of the trace ring: a header is readable before its payload is written, so calls are taken one after another, and the walk's callback does not call the ring.
- The walk time stamp of the trace ring, which no ring operation reads.
- MfdBuilder.BuildCells: for the block count 0xffffffff, which the size check lets pass, ends at the point where the code would read its size table past the end; what it reads there is not modelled.
- MfdBlocks.RowsAreSound: interrupt sets are sets of bit positions rather than 8-bit masks, since the walk only takes and clears single bits.
- The compatible strings, platform data and device-tree addresses that the builder copies into each cell.
- I2cExt.Controller.FillChunk: a write to the data window is taken to succeed, because the code overwrites its result.
- The address, speed and mode bits of an access, and bytes on the wire of an access that failed.
- The interrupt type of a gpio descriptor: the code assigns it to an unused variable, so it reaches no register.
- GpioIndex.Adapter.Init: starts from parsed descriptors; the text parsing and the cold-boot write of the pin's configuration are only whether they succeed. The names and reference counts of table entries are not kept.
- GpioConfig.Block.ConfigStore: starts from the parsed token values; the option text, and the pin name kept beside the registers, are not modelled.
- Attributes of the scratch overlay that are numbers or bits, and the other field formats of the sysfs layer.
- The messages of a transfer and their buffers are taken to be different objects.
- I2cTransferLaws.CountMeansDone: is about transfers in which no read is longer than the block can ask for at once with the 512-byte buffer; I2cChunks.ReadsTrueExactly says that longer ones are not the device's bytes.
- Which errno a failed I2C-EXT register access reports: all are one error value, since the code never branches on which it is.
