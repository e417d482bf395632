# GrahaOS kernel cores in Dafny

This project models the parts of GrahaOS that keep records, print them, index them and load
them, and proves what those parts promise. Each module follows one source file or one pair of
files that must agree.

- **Audit pipeline** (`AuditLog`, `AuditDisk`, `AuditReboot`, `AuditQueue`, `AuditStream`, `AuditTable`). Producers append to an
  overwrite-oldest ring of 1024 entries; a flusher drains it in batches of 32 and appends to one file
  per day; subscribers have rings of 64 with wrapping 32-bit counters. `AuditLog` is a step system:
  every locked section and every file-system call is a step, every call may fail or tear its write,
  and a run is any sequence of steps. It proves that every entry is accounted for in every run and that
  writes follow enqueue order. `AuditDisk` proves that each entry counted as written stands in exactly
  one slot of one file, and that the files read day by day give the entries in enqueue order.
  `AuditReboot` decides, for a stop at any step and any outcome of the next kernel's attempt to open the
  day's file, whether an entry can be lost. `AuditQueue` is the same
  pipeline in place: each method performs one step of the system on the ring, the counters and the open
  file. `AuditTable` runs the whole subscriber table, and the queue and the table together with any
  number of producers broadcasting at once.
- **Calendar** (`Calendar`). The year-by-year loop of `rtc.c` and the era arithmetic of the log file
  name are inverse to each other; both follow a one-day-at-a-time reference calendar.
- **PID index** (`PidHash`). Hash chains and a doubly linked list over the same nodes, tied to a
  history of births and deaths.
- **Formatter** (`Formats`, `Vsnprintf`). The bounded printf refines an unbounded renderer, and the
  renderer's scan of a format's text agrees with the meaning of the format's structure; every text has
  such a structure.
- **klog sweep** (`KlogSweep`, `SweepMeaning`). The source rewriter is idempotent, and the klog calls it
  writes say what the replaced calls said.
- **klog ring and panic report** (`KlogMicro` and `KlogStore` in `KlogRing.dfy`, `OopsText`, `OopsParse`, `PanicEmit`). The log writer is a
  sequence of single stores that a panic may freeze anywhere; the dump, the serial text and the host's
  parser are followed end to end.
- **Loaders and codecs** (`ElfLoader`, `Initrd`, `Ustar`, `Leb128`, `WasmItems`, `Gcp2Wit`, `JsonEscape`).
  `Ustar` defines archives independently of the kernel's walk and ties the two.

`Numerals` (digits and their reader) and `Options` are shared.

Where the code and its comments or documentation disagree, the model follows the code:

- `scripts/gcp2wit.py` says its output does not depend on the manifest's key order. It does when two
  syscalls of one interface share a number: `Gcp2Wit.ShuffleShows`, and the exact condition
  `Gcp2Wit.KeyOrderIrrelevantIff`.
- The same document can import an interface twice, because different pledges can have one identifier:
  `Gcp2Wit.TwoPledgesOneIdent`, and the exact condition `Gcp2Wit.PrintedOnceIff`.
- `initrd.c` says it supports POSIX TAR archives. It ignores the prefix field, runs on behind a name that
  uses all 100 bytes, steps over the size a directory shows though nothing is stored for it, and cuts
  components to 99 characters and directories to 126: `Ustar.PrefixIsIgnored`, `Ustar.FullNameIsOverrun`,
  `Ustar.DirectorySizeHidesNext`, `Initrd.LongDirectoryIsEmpty`, and the exact conditions
  `Ustar.NameIsPathIff`, `Ustar.NamesArePathsIff`, `Ustar.AllReachedIff`, `Initrd.CutShowsIff` and
  `Initrd.FoundIsListedIff`.
- A kernel that stops between an entry's write and the header's lets the next one write over the entry,
  and so does a header that the next kernel cannot read: `AuditReboot.CrashBeforeHeader`,
  `AuditReboot.FailedReadLoses`, and the exact condition `AuditReboot.RestartKeepsIff`.
- `format_log_filename` tests for 25 bytes and writes 26, terminator included:
  `Calendar.FormatLogFilename`.
- `elf_load` clamps the copy of a segment's first page without counting the start offset, so bytes behind
  the file part can be copied too: `ElfLoader.ByteBehindTheSegment`, and the exact condition
  `ElfLoader.ImageIffClampHarmless`.
- `rtc_init` accepts a 30 February and a second 60: `Calendar.FebruaryThirtieth`, and the exact condition
  `Calendar.ReadingKeepsItsDate`.
- `klog_sweep.py` cuts the two characters `\n` off a literal even where the backslash is itself escaped,
  lets an octal or hexadecimal escape at the end of one literal go on in the next, does not see a percent
  sign written as an escape, and joins literals behind an escaped zero byte:
  `SweepMeaning.EscapedBackslashIsCut`, `SweepMeaning.EscapeGoesOn`, `SweepMeaning.EscapedPercentIsRead`,
  `SweepMeaning.NulCutsTheRest`, and the exact conditions in `SweepMeaning.RewritingKeepsMeaning`.
  Its `0x%lx` prints fewer digits, in lower case, than the serial driver's hexadecimal writer:
  `SweepMeaning.HexTextsDiffer`, and the exact condition `SweepMeaning.TextsAgreeIff`.
- The shell's printing loop does not know the escape `\r` that its own escaper writes:
  `JsonEscape.CarriageReturnIsLost`, and the exact condition `JsonEscape.RoundTripIff`.
- `parse_oops.py` passes over log lines of the levels 6 to 15, which the kernel prints as `?????`:
  `OopsParse.TailReadsBack`.

Text is modelled as `seq<char>` with one character per byte; C integers are unbounded except where a
member writes the wrap-around or truncation out.

## Model

| member | source | states |
|---|---|---|
| `AuditLog.NextKeepsInv` | kernel/audit.c:140-726 | every step of the pipeline, with any outcome of its file-system calls, keeps the invariant that ties cursors, counters, fates of entries, file sizes and disk contents together |
| `AuditLog.Run` | kernel/audit.c:676-726 | the invariant holds after any sequence of steps |
| `AuditLog.HistoryIsWhatWasEnqueued` | kernel/audit.c:140-156 | in any run the queue's history is exactly the entries enqueued, in order |
| `AuditLog.EveryEntryAccountedFor` | kernel/audit.c:140-156 | in any interleaving total written = persisted + dropped + overwritten + drained but unprocessed + pending; at most 1024 pending and at most 32 in the batch |
| `AuditLog.CountMark` | kernel/audit.c:140-156 | moving a stretch of entries from one fate to another moves its length between the two counters and changes no other |
| `AuditLog.EnqueueKeepsQueue` | kernel/audit.c:140-156 | an enqueue, with or without overwriting the oldest pending entry, keeps every counter equal to the number of entries with its fate |
| `AuditLog.DrainKeepsQueue` | kernel/audit.c:691-697 | so does draining a batch |
| `AuditLog.PersistKeepsQueue` | kernel/audit.c:699-720 | so does a successful write, and the written indices stay increasing |
| `AuditLog.DropKeepsQueue` | kernel/audit.c:699-720 | so does a failed write |
| `AuditLog.AppendKeepsFiles` | kernel/audit.c:642-657 | an append puts the entry behind those already placed, overwrites none of them and keeps the size cap |
| `AuditLog.OpenKeepsFiles` | kernel/audit.c:561-603 | opening a log, on every branch and failure, keeps what the disk holds of this run and establishes size = 32 + 256 * count |
| `AuditLog.DiskHoldsSubsequence` | kernel/audit.c:642-726 | in any run the indices of the writes increase strictly, and each file holds, in consecutive slots, the enqueued entries of an increasing part of them |
| `AuditDisk.PersistedIsStoredOnce` | kernel/audit.c:642-726 | in any run with a clock in years 1970..9999, every entry counted as written is on the disk, in exactly one slot of exactly one file |
| `AuditDisk.DiskOrderIsEnqueueOrder` | kernel/audit.c:642-726 | in any such run, of two stored entries the one enqueued first is in an earlier slot of the same file or in the file of an earlier day, and conversely: the disk, read day by day, is in enqueue order |
| `AuditDisk.NewDayNewFile` | kernel/audit.c:668-674 | a rotation to a later day opens a file not used before, of a later day than every file used before |
| `AuditDisk.StepKeepsLocated` | kernel/audit.c:561-726 | every step keeps each written entry in one file, no entry in two, and the order of days across files |
| `AuditLog.FreshFileStaysWithinCap` | kernel/audit.c:642-657 | a file this kernel created has size 32 + 256 * count <= 49152 and at most 191 entries, in any run |
| `AuditLog.FatesOnlyAdvance` | kernel/audit.c:140-726 | an entry goes pending, drained, then persisted or dropped; or pending, overwritten; never back |
| `AuditLog.OnlyTheTailIsWritten` | kernel/audit.c:561-674 | no step changes a record on the disk other than the one at the append offset |
| `AuditLog.RebootResumesAtTheEnd` | kernel/audit.c:561-665 | after a header write, a reboot on the same day takes over count and offset and all earlier records stand |
| `AuditReboot.RestartKeepsIff` | kernel/audit.c:561-665 | for a stop at any step with the day's file open, and any outcome of the next kernel's attempt to open it: every run that follows leaves all entries of the file in place if and only if the attempt fails or reads a header that counts them all |
| `AuditReboot.HarmlessKeeps` | kernel/audit.c:561-726 | in these two cases no later write or rotation touches them |
| `AuditReboot.EarlyStartLoses` | kernel/audit.c:561-665 | otherwise, be the header behind, unreadable or missing, some run of the next kernel writes over one of them |
| `AuditReboot.FailedReadLoses` | kernel/audit.c:582-593 | a failed read of any header, followed by a successful rewrite, is not harmless, even where the header counts everything |
| `AuditReboot.CrashBeforeHeader` | kernel/audit.c:699-720 | a concrete run that stops with a header behind its file, which is not harmless though every later call succeeds |
| `AuditLog.StalledFlusherLosesTheExcess` | kernel/audit.c:140-156 | with a flusher that stands still, any burst loses exactly what exceeds 1024 pending entries, and `overwritten` counts it |
| `AuditQueue.AuditState.constructor` | kernel/audit.c:474-486 | the empty queue over any disk starts in the step system's initial state |
| `AuditQueue.AuditState.Enqueue` | kernel/audit.c:140-156 | the ring write with its modulo slot and the overrun branch performs the enqueue step and keeps the ring holding the last 1024 entries |
| `AuditQueue.AuditState.OpenTodayLog` | kernel/audit.c:561-603 | creates, reads or rewrites the header and sets the file fields as the model's open does, on every failure path |
| `AuditQueue.AuditState.AttachFs` | kernel/audit.c:605-637 | performs the attach step; attached exactly when a file was opened, and nothing done in a ktest boot or without a clock |
| `AuditQueue.AuditState.RotateIfNeeded` | kernel/audit.c:668-674 | performs the rotate step |
| `AuditQueue.AuditState.CopyBatch` | kernel/audit.c:687-697 | the loop copies out the oldest pending entries, at most 32, and moves the cursor past them |
| `AuditQueue.AuditState.DrainBatch` | kernel/audit.c:687-699 | performs the drain step |
| `AuditQueue.AuditState.PersistOneEntry` | kernel/audit.c:642-657 | returns -1, -2 or 0 exactly as the file is absent, full or written, with the file's contents and counters in each case |
| `AuditQueue.AuditState.PersistNext` | kernel/audit.c:699-720 | performs the persist step for the next entry of the batch |
| `AuditQueue.AuditState.UpdateHeaderCount` | kernel/audit.c:660-665 | performs the header step |
| `AuditQueue.AuditState.Query` | kernel/audit.c:1412-1434 | returns the first max entries, oldest first, of the last min(1024, total) enqueued ones that satisfy time window and event mask, for every history and flusher position; nothing else in the output changes |
| `AuditQueue.FirstOfMatching` | kernel/audit.c:1418-1432 | a scan that stops at max matches or at the end has found the first max of all matches |
| `AuditStream.WrappedDifference` | kernel/audit.c:263-264 | the 32-bit difference of wrapped head and tail is their true distance |
| `AuditStream.WrappedSlot` | kernel/audit.c:265-268 | because 64 divides 2^32, a wrapped counter still selects the slot of the unwrapped one |
| `AuditStream.RingHoldsLatestPushed` | kernel/audit.c:279-309 | the ring read through its wrapped counters is the run of most recently pushed entries, in order |
| `AuditStream.DeliverKeepsLife` | kernel/audit.c:279-309 | delivering an entry, whether filtered out, refused by the lock, pushed or pushing out the oldest, keeps the subscription's books |
| `AuditStream.ReadKeepsLife` | kernel/audit.c:253-271 | so does a read of any size, and it returns the oldest entries of the ring |
| `AuditStream.DeliverIsDropOldest` | kernel/audit.c:300-306 | in terms of contents a delivery appends to a queue of at most 64 and drops the oldest when full |
| `AuditStream.ReadIsTake` | kernel/audit.c:253-271 | in terms of contents a read removes exactly the entries it returned |
| `AuditStream.OfferedAreTheBroadcasts` | kernel/audit.c:279-309 | over a subscription's life the entries offered to it are exactly the broadcasts its filter passes |
| `AuditStream.SubscriptionAccount` | kernel/audit.c:253-309 | for any run of broadcasts and reads: passing broadcasts = entries read + dropped_count + entries in the ring; reads are in broadcast order without repetition; the ring holds the latest pushed entries; across any number of counter wraps |
| `AuditTable.TableAccount` | kernel/audit.c:194-309 | the same account for a subscription inside any run of the whole table, from its subscribe to its end, with any other processes subscribing, unsubscribing, dying and reading meanwhile |
| `AuditTable.SlotStep` | kernel/audit.c:194-309 | in the table a subscription changes by broadcasts and its owner's reads and by nothing else |
| `AuditTable.SlotIsSession` | kernel/audit.c:194-309 | a slot seen from its subscribe on is the session of its own steps |
| `AuditTable.PartsRun` | kernel/audit.c:140-309 | a run of queue, table and producers in any interleaving is a run of the queue by itself beside a run of the table by itself, whose broadcasts are those of the producers |
| `AuditTable.EveryEntryIsBroadcastOnce` | kernel/audit.c:140-309 | in any such run, with any number of producers between enqueue and the end of their broadcast: the entries enqueued are, for each slot of the table, those brought to it, once each, and those still on their way to it |
| `AuditStream.Subscribers.constructor` | kernel/audit.c:474-486 | all slots start free |
| `AuditStream.Subscribers.Subscribe` | kernel/audit.c:194-223 | takes the first free slot with an empty ring, or returns -1 exactly when none is free |
| `AuditStream.Subscribers.Unsubscribe` | kernel/audit.c:225-236 | frees a used slot and no other; out-of-range and free slots change nothing |
| `AuditStream.Subscribers.UnsubscribeAllForPid` | kernel/audit.c:238-251 | afterwards no slot belongs to the process, and every other slot is as before |
| `AuditStream.Subscribers.Broadcast` | kernel/audit.c:279-309 | the loop over the slots is the run of one announcement per slot, in order: every slot receives the entry by its own rule, under its own lock's outcome |
| `AuditStream.Subscribers.StreamRead` | kernel/audit.c:253-271 | copies out the oldest entries of the caller's own subscription; -1, with nothing changed, exactly for a bad slot, a zero maximum, a free slot or another process's slot |
| `Calendar.CalendarToUnix` | kernel/rtc.c:54-67 | the loop's result is the day number of the date times 86400 plus the time of day |
| `Calendar.DayNumberOfNextDay` | kernel/rtc.c:48-67 | the loop numbers consecutive calendar days consecutively, leap years included |
| `Calendar.DayNumberInjective` | kernel/rtc.c:48-67 | two different valid dates from 1970 on have different numbers |
| `Calendar.YearOfEraOfParts` | kernel/audit.c:501-504 | the division formula finds the year of the era from centuries, 4-year groups, years and days |
| `Calendar.YearOfEraBrackets` | kernel/audit.c:501-504 | for every day of the 400-year era that year starts on or before the day and the next one after it |
| `Calendar.CivilSuccessor` | kernel/audit.c:499-508 | for every integer day the closed form gives a valid date, and the next integer gives the next calendar day |
| `Calendar.CivilIsDateAfter` | kernel/audit.c:499-508 | from 1970 on the closed form is the reference calendar and the loop's inverse |
| `Calendar.CivilRoundTrip` | kernel/rtc.c:54-67 | every valid date from 1970 on comes back from its day number |
| `Calendar.DayOfInstantIsFloor` | kernel/audit.c:496-497 | C's truncating division with its correction is the floor, for negative instants too |
| `Calendar.ReadingKeepsItsDate` | kernel/rtc.c:132-141 | an accepted clock reading is filed under its own date if and only if the date exists and the reading is not 23:59:60 |
| `Calendar.FebruaryThirtieth` | kernel/rtc.c:132-141 | a concrete accepted reading filed under another date |
| `Calendar.LogPathSpellsDate` | kernel/audit.c:517-535 | for years 0..9999 the path is the date in zero-padded decimal |
| `Calendar.LogPathInjective` | kernel/audit.c:517-535 | different dates of those years have different paths |
| `Calendar.FileOfDateTime` | kernel/audit.c:494-536 | every valid date-time of years 1970..9999, converted and formatted, prints exactly its own YYYY-MM-DD |
| `Calendar.SameFileSameDay` | kernel/audit.c:494-536 | two instants of those years have the same path if and only if they fall in the same 86400-second day |
| `Calendar.RotationIffNewName` | kernel/audit.c:668-674 | with a clock that does not run backwards the rotation test fires exactly when the file name changes |
| `Calendar.FormatLogFilename` | kernel/audit.c:494-536 | with 25 or more bytes claimed, writes the path and a NUL, 26 bytes, and nothing else; with fewer, only an empty string or nothing |
| `PidHash.PidIndex.constructor` | kernel/pid_hash.c:27-34 | the empty index is valid with an empty history |
| `PidHash.PidIndex.InsertInChain` | kernel/pid_hash.c:52-54 | the node becomes the head of the chain of its id and no other chain changes |
| `PidHash.PidIndex.AppendToList` | kernel/pid_hash.c:56-66 | the node becomes the tail; forward and backward links stay mirror images |
| `PidHash.PidIndex.Insert` | kernel/pid_hash.c:46-69 | chains and list keep holding the same nodes; creation order extended by one; history extended by one birth |
| `PidHash.PidIndex.UnlinkFromChain` | kernel/pid_hash.c:77-86 | the pointer-to-pointer walk removes exactly this node from exactly its chain |
| `PidHash.PidIndex.UnlinkFromList` | kernel/pid_hash.c:88-101 | removes exactly this node from the doubly linked list, whether first, last, only or in between |
| `PidHash.PidIndex.Remove` | kernel/pid_hash.c:71-104 | chains and list keep holding the same nodes; the others keep their order; history extended by one death |
| `PidHash.PidIndex.Lookup` | kernel/pid_hash.c:106-116 | finds the live node with the id, and finds one if and only if the id is in the map that the whole history of inserts and removes leaves |
| `PidHash.PidIndex.Enumerate` | kernel/pid_hash.c:118-128 | visits every live node once, in creation order |
| `PidHash.PidIndex.Count` | kernel/pid_hash.c:130-135 | equals the length of the list |
| `PidHash.SameTasksInserted` | kernel/pid_hash.c:46-69 | bucket b holds exactly the live ids with id & 2047 == b, before and after an insert |
| `PidHash.SameTasksRemoved` | kernel/pid_hash.c:71-104 | and before and after a remove |
| `PidHash.BirthKeepsOrder` | kernel/pid_hash.c:46-69 | appending a new id keeps the list in the order of insertion times of the history's map |
| `PidHash.DeathKeepsOrder` | kernel/pid_hash.c:71-104 | removing any id does too |
| `Formats.RenderIsMeaning` | kernel/vsnprintf.c:139-249 | for every sequence of literal characters and directives, with any digits, stars or nothing as width and precision, scanning its text takes exactly the arguments each directive names and renders its structural meaning |
| `Formats.RenderIsFormatMeaning` | kernel/vsnprintf.c:139-249 | likewise for a text that ends inside a directive, which prints nothing for it but takes its star arguments |
| `Formats.EveryTextIsAFormat` | kernel/vsnprintf.c:139-249 | every string is the text of such a format, so the two statements cover every format string |
| `Formats.ScanSpecOf` | kernel/vsnprintf.c:146-191 | the scan of a directive's text recovers its flags, width, precision, length and conversion, whatever follows it |
| `Formats.RenderDirective` | kernel/vsnprintf.c:139-249 | one directive renders its own field and leaves the rest of the format and the remaining arguments to the rest |
| `Formats.ScanNumberOf` | kernel/vsnprintf.c:164-183 | a decimal number in a format reads back, up to the first character that is no digit |
| `Formats.IntFieldReadsBack` | kernel/vsnprintf.c:87-121 | for every value, INT64_MIN included, width and flag set, the field has length max(width, sign + digits) and reads back to the value |
| `Formats.UintFieldReadsBack` | kernel/vsnprintf.c:68-84 | likewise for unsigned fields in both bases |
| `Numerals.DigitsReadBack` | kernel/vsnprintf.c:53-65 | every numeral reads back to its number and has no leading zero |
| `Numerals.DigitsShortest` | kernel/vsnprintf.c:53-65 | no shorter string of digits has the same value |
| `Numerals.DigitCount` | kernel/vsnprintf.c:53-65 | k digits suffice exactly for the numbers below base^k |
| `Numerals.Uint64DigitCount` | kernel/vsnprintf.c:53-65 | no 64-bit value needs more than 20 decimal or 16 hexadecimal digits, so the 32-byte scratch buffer never truncates |
| `Numerals.PaddedReadsBack` | kernel/panic.c:64-87 | a zero-padded numeral reads back and has at least its width |
| `Vsnprintf.WriteChar` | kernel/vsnprintf.c:15-20 | the buffer holds the prefix of the text that fits and the position counts the whole text |
| `Vsnprintf.WritePad` | kernel/vsnprintf.c:22-26 | appends the padding to that text, none for a negative count |
| `Vsnprintf.BoundedStrlen` | kernel/vsnprintf.c:29-33 | the smaller of the string's length and a non-negative maximum |
| `Vsnprintf.WriteStr` | kernel/vsnprintf.c:36-50 | appends the string field, the null string included |
| `Vsnprintf.FormatUintDigits` | kernel/vsnprintf.c:53-65 | leaves all digits, lowest first, in the scratch buffer for every 64-bit value |
| `Vsnprintf.WriteUint` | kernel/vsnprintf.c:68-84 | appends the unsigned field |
| `Vsnprintf.WriteInt` | kernel/vsnprintf.c:87-121 | appends the signed field for every 64-bit value |
| `Vsnprintf.IntFieldForm` | kernel/vsnprintf.c:102-120 | spaces, sign, zeros, digits, spaces in the order written are the field |
| `Vsnprintf.WritePtr` | kernel/vsnprintf.c:123-131 | appends 0x and sixteen digits |
| `Vsnprintf.ParseSpec` | kernel/vsnprintf.c:146-191 | the pointer loops find what the scan of the format finds |
| `Vsnprintf.WriteConversion` | kernel/vsnprintf.c:193-247 | every case of the switch appends its field and takes its argument |
| `Vsnprintf.PrintAll` | kernel/vsnprintf.c:139-249 | the main loop appends the whole rendering, whatever the capacity |
| `Vsnprintf.KvSnprintf` | kernel/vsnprintf.c:133-259 | for any capacity the result is the full rendered length, the buffer its prefix of length min(len, cap-1) and a NUL, and every other byte is unchanged |
| `KlogSweep.CollectGroup` | scripts/klog_sweep.py:136-154 | collects exactly the maximal run of adjacent calls at the first line's indent |
| `KlogSweep.RewriteOne` | scripts/klog_sweep.py:128-200 | one turn of the loop emits one line and goes on where the specification of the sweep goes on |
| `KlogSweep.RewriteLines` | scripts/klog_sweep.py:121-202 | the loop's output lines and both counts are the sweep of the whole file |
| `KlogSweep.RewrittenIsSettled` | scripts/klog_sweep.py:121-202 | after a sweep the only calls left are lone ones whose message holds a percent sign |
| `KlogSweep.SettledIsFixed` | scripts/klog_sweep.py:121-202 | a sweep leaves any such file unchanged and counts nothing |
| `KlogSweep.SweepIsIdempotent` | scripts/klog_sweep.py:121-202 | a second sweep of any file changes nothing and counts nothing |
| `SweepMeaning.RewritingKeepsMeaning` | scripts/klog_sweep.py:158-183 | for every group of calls with any C literals, octal and hexadecimal escapes included: the joined text is a literal of the replaced text, with percent signs doubled and a directive for each number, if and only if no percent sign is written as an escape and no escape at the end of a part goes on in the next; then, without zero bytes, the generated text is a literal if and only if a backslash and n that end it are one escape, and rendering it with the generated arguments gives the replaced text less that newline, percent signs inert, with no argument left over |
| `SweepMeaning.EscapedBackslashIsCut` | scripts/klog_sweep.py:93-97 | a concrete literal that is no literal after the cut |
| `SweepMeaning.EscapeGoesOn` | scripts/klog_sweep.py:158-173 | two concrete literals whose joined text denotes another string than the two together |
| `SweepMeaning.EscapedPercentIsRead` | scripts/klog_sweep.py:158-165 | a concrete literal with an escaped percent sign, which klog reads as a directive without argument |
| `SweepMeaning.NulCutsTheRest` | scripts/klog_sweep.py:158-173 | two concrete calls of which the generated one says only the first |
| `SweepMeaning.LexConcat` | scripts/klog_sweep.py:173 | two texts put together have as many characters and escapes as before if and only if no escape at the end of the first goes on in the second, and fewer otherwise |
| `SweepMeaning.StrippedLiteral` | scripts/klog_sweep.py:93-97 | cutting the two characters of a final newline escape leaves a literal exactly when they are one escape |
| `SweepMeaning.LiteralDoubled` | scripts/klog_sweep.py:162-165 | doubling the percent signs of a literal's text doubles those of the string it denotes if and only if none of them is written as an escape, and leaves a literal in any case |
| `SweepMeaning.GroupFormat` | scripts/klog_sweep.py:158-173 | the joined format denotes the text of the group's pieces if and only if the group is clean in that sense; otherwise it has fewer characters |
| `SweepMeaning.SimpleLineFormat` | scripts/klog_sweep.py:187-196 | a single line without percent sign is the one-element case of a group |
| `SweepMeaning.HexSameEitherWay` | arch/x86_64/drivers/serial/serial.c:145-181 | the shortest lower-case numeral equals the driver's sixteen upper-case digits if and only if the value is at least 2^60 and uses no letter |
| `SweepMeaning.TextsAgreeIff` | scripts/klog_sweep.py:166-171 | old and new text agree character for character if and only if every hexadecimal value is of that kind |
| `SweepMeaning.HexTextsDiffer` | scripts/klog_sweep.py:166-171 | a concrete value printed differently |
| `KlogMicro.NextKeepsInv` | kernel/log.c:195-227 | every single store of the writer keeps all finished entries of the ring intact except the one whose slot is being reused |
| `KlogMicro.PanicDumpIsExact` | kernel/panic.c:145-184 | frozen at any store of any run, the unlocked dump emits exactly the last min(256, head) finished entries, whole, with consecutive sequence numbers |
| `KlogMicro.DumpIsPublished` | kernel/panic.c:149-162 | from any index not yet reused the dump skips nothing and shows no torn slot |
| `KlogMicro.WholeWrite` | kernel/log.c:195-227 | an uninterrupted write publishes one slot with the next sequence number and leaves all others alone |
| `KlogStore.ResidentIsFilled` | kernel/log.c:184-227 | after any sequence of writes slot i & 16383 holds the i-th write with sequence i + 1, for every resident i |
| `KlogStore.Ring.constructor` | kernel/log.c:37-58 | an empty ring that drops writes until it is initialised |
| `KlogStore.Ring.BringUp` | kernel/log.c:253-261 | from then on writes are kept; entries and counters as before |
| `KlogStore.Ring.WriteFormatted` | kernel/log.c:184-227 | appends one record with the level's low four bits and the message cut to 223 characters; before initialisation only counts a drop |
| `KlogStore.Ring.FillMessage` | kernel/log.c:214-220 | message bytes, then zeros up to the end of the area; other slots and fields unchanged |
| `KlogStore.Ring.ReadFiltered` | kernel/log.c:365-412 | without a concurrent writer returns exactly the first dst_max entries with a wanted level of the last `walk` writes, in order |
| `OopsText.SplitUnlines` | scripts/parse_oops.py:87-90 | splitting joined one-line strings gives them back |
| `OopsText.SplitAtNewline` | scripts/parse_oops.py:87-90 | text before a line feed does not change how the text behind it splits |
| `OopsText.SignedOf` | scripts/parse_oops.py:31-35 | a printed signed number is matched whole |
| `OopsParse.ParseOops` | scripts/parse_oops.py:66-154 | the line loop with its state variable computes the parse of the text |
| `OopsParse.HeaderReadsBack` | scripts/parse_oops.py:31-35 | the header pattern recovers phase, build, cpu, pid and reason from the line the kernel prints |
| `OopsParse.MagicReadsBack` | scripts/parse_oops.py:38 | the magic line is recovered |
| `OopsParse.CrReadsBack` | scripts/parse_oops.py:41-43 | both control registers are recovered |
| `OopsParse.RipReadsBack` | scripts/parse_oops.py:46-50 | rip, rsp and rflags are recovered |
| `OopsParse.FrameReadsBack` | scripts/parse_oops.py:53 | index and address of a stack frame are recovered |
| `OopsParse.TailReadsBack` | scripts/parse_oops.py:56-59 | a log line's sequence, time, level, subsystem and message are recovered if and only if its level is 0..5; otherwise the line is passed over |
| `OopsParse.FramesFeed` | scripts/parse_oops.py:66-154 | the parser collects every frame of any trace, in order |
| `OopsParse.TailsFeed` | scripts/parse_oops.py:66-154 | inside the log block no message text ends the block or passes for another line |
| `OopsParse.ReportFeeds` | scripts/parse_oops.py:66-154 | fed the lines of any report the parser ends complete, with exactly what was reported |
| `OopsParse.OopsRoundTrip` | scripts/parse_oops.py:66-154 | parsing any serial log that contains the text of a report gives the report back: any registers, frames, log entries and message bytes, any text behind it, and any text before it without a header line |
| `PanicEmit.Serial.SHex` | kernel/panic.c:64-70 | prints 0x and sixteen digits |
| `PanicEmit.Serial.SDec` | kernel/panic.c:72-78 | prints the signed numeral |
| `PanicEmit.Serial.SDecPadded` | kernel/panic.c:80-87 | prints the numeral padded with zeros to the width |
| `PanicEmit.Serial.DumpStackTrace` | kernel/panic.c:125-141 | prints one line per frame of the rbp chain, at most 32, stopping at a null, misaligned, low or non-increasing pointer |
| `PanicEmit.Serial.PrintEntry` | kernel/panic.c:163-182 | prints a log entry as one line |
| `PanicEmit.Serial.PrintMessage` | kernel/panic.c:178-181 | prints the message up to its NUL with unprintable bytes as spaces |
| `PanicEmit.Serial.DumpKlogTail` | kernel/panic.c:145-185 | prints exactly the unguarded written entries of the last 256, between the markers |
| `PanicEmit.Serial.EmitHeader` | kernel/panic.c:196-211 | prints the header line |
| `PanicEmit.Serial.EmitControl` | kernel/panic.c:213-239 | prints magic, control registers and instruction pointer lines |
| `PanicEmit.Serial.EmitRegs` | kernel/panic.c:241-264 | prints the register lines |
| `PanicEmit.Serial.EmitOops` | kernel/panic.c:189-268 | the characters sent are the text of the report of this panic |
| `PanicEmit.PanicIsReadable` | kernel/panic.c:145-268 | end to end: whatever store the log writer was frozen at, the host's parser recovers from the serial log the report and, of the last min(256, head) finished entries, every one whose level has a name |
| `ElfLoader.FileBytesArePlaced` | kernel/elf.c:172-206 | for any alignment every byte of a file part that fits the address space is at its own address |
| `ElfLoader.WrappedIsNotCopied` | kernel/elf.c:172-206 | of a file part whose end wraps around 64 bits nothing is copied to the pages behind the first |
| `ElfLoader.HarmlessGivesImage` | kernel/elf.c:172-206 | for a file part that fits, in a page-aligned segment or filling its first page, every byte of the pages is the ABI image's |
| `ElfLoader.ImageIffClampHarmless` | kernel/elf.c:176-183 | for a file part that fits, the image of the first page is built for every file if and only if the segment is page-aligned or its file part fills the page |
| `ElfLoader.ByteBehindTheSegment` | kernel/elf.c:176-183 | a concrete segment with a byte the image does not have |
| `ElfLoader.SegmentIsCovered` | kernel/elf.c:138-140 | every address of the segment in memory lies in one of its pages |
| `ElfLoader.MappedPages` | kernel/elf.c:148-222 | the page loop maps exactly the segment's pages and keeps the others |
| `ElfLoader.SegmentPageSurvives` | kernel/elf.c:122-223 | with disjoint page ranges no segment's page is replaced by another's |
| `ElfLoader.LoadedImage` | kernel/elf.c:122-223 | the loaded address space holds every segment's file bytes, its zeros under the exact condition, and its write and execute protection |
| `ElfLoader.SegmentInMemory` | kernel/elf.c:122-223 | at every address of a segment a program sees the file's byte in the file part and, under the exact condition, zero behind it |
| `ElfLoader.FillPage` | kernel/elf.c:165-206 | clearing and copying in place gives the page's bytes |
| `ElfLoader.LoadAll` | kernel/elf.c:122-223 | for segments whose pages lie inside 64 bits, with file parts of any size, the nested loops build that address space, and succeed if and only if no page they need is refused |
| `Initrd.Oct2ulong` | kernel/initrd.c:47-54 | reads a field of octal digits, of any width and with anything but a digit behind it, to the number it shows |
| `Initrd.OctalReadsBack` | kernel/initrd.c:47-54 | the digits of any number that fits the field read back to the number |
| `Initrd.TarNext` | kernel/initrd.c:103-108 | the next header is the first block boundary at or behind the end of the data |
| `Initrd.SameName` | kernel/initrd.c:36-42 | true if and only if the header's name is the string |
| `Initrd.Lookup` | kernel/initrd.c:69-100 | in any archive whose chain of headers ends: finds the first header with the name, its data and size; nothing if and only if no header has the name |
| `Initrd.MatchPrefix` | kernel/initrd.c:111-116 | where the name continues behind the prefix, if it has it |
| `Initrd.FirstComponent` | kernel/initrd.c:120-127 | the part up to the first slash, cut to 99 characters, and whether a slash follows it |
| `Initrd.CutShowsIff` | kernel/initrd.c:120-127 | what a name shows of a directory is not affected by the buffer if and only if its component has at most 99 characters |
| `Initrd.NameEnds` | kernel/initrd.c:69-100 | every name the walk reads ends inside the archive |
| `Initrd.NormalisePrefix` | kernel/initrd.c:133-140 | the directory's prefix, without leading and with trailing slash, cut to the buffer |
| `Initrd.CutListing` | kernel/initrd.c:133-140 | the cut never changes the listing of names of up to 126 characters |
| `Initrd.ShownAt` | kernel/initrd.c:145-151 | what one header shows of a directory |
| `Initrd.SeenBefore` | kernel/initrd.c:153-164 | the inner scan finds the name if and only if it is already in the listing |
| `Initrd.ReadDir` | kernel/initrd.c:129-176 | in any archive whose chain of headers ends: index i gives the i-th entry of the listing and its kind, cut to the output; fails, changing nothing, exactly past the end or with no room |
| `Initrd.ListingIsDistinct` | kernel/initrd.c:141-174 | no name is listed twice |
| `Initrd.ListingIsComplete` | kernel/initrd.c:141-174 | a name is listed if and only if some archive name shows it as a first-level child other than . and .. |
| `Initrd.FoundFilesAreListed` | kernel/initrd.c:69-176 | a file found at prefix + x has x in the listing for that prefix if and only if x has at most 99 characters, and its first 99 in any case |
| `Initrd.FoundInDirectory` | kernel/initrd.c:129-176 | for a directory argument that fits the prefix buffer, a file found in it is in what readdir walks through if and only if its name has at most 99 characters |
| `Initrd.FoundIsListedIff` | kernel/initrd.c:129-176 | every such file of up to 99 characters is listed, in every archive, if and only if the directory fits the prefix buffer |
| `Initrd.CutPrefixIff` | kernel/initrd.c:133-140 | the buffer holds the whole prefix if and only if the directory has at most 126 characters without its slash |
| `Initrd.LongDirectoryIsEmpty` | kernel/initrd.c:133-140 | a concrete directory of 127 characters whose file is found and whose listing is empty |
| `Ustar.NameIsPathIff` | kernel/initrd.c:69-151 | the name the kernel reads from a header is the header's ustar path if and only if the prefix field is empty and the name ends inside its field or before a zero byte; where a name of 100 bytes is under a prefix, the fields behind it hold no slash |
| `Ustar.ArchiveWalk` | kernel/initrd.c:69-108 | the walk over an archive written from any files whose size fields show what is stored, in octal of any width before spaces or zeros, visits exactly those files, in order |
| `Ustar.AllReachedIff` | kernel/initrd.c:69-108 | for any archive, with directories, devices and pipes that show a size and store nothing, the walk reaches the header of every file if and only if each file before the last shows the size of what is stored |
| `Ustar.DirectorySizeHidesNext` | kernel/initrd.c:103-108 | a concrete archive of a directory that shows 512 bytes and a file behind it, which is not seen |
| `Ustar.FileReadsBack` | kernel/initrd.c:69-108 | from any written header the kernel reads the size shown, the name field and what runs on behind it; the next header it goes to is the block boundary behind as many bytes as are shown |
| `Ustar.NamesArePathsIff` | kernel/initrd.c:69-151 | the names of an archive of such files are its paths if and only if every file is visible in that sense |
| `Ustar.LookupFindsTheData` | kernel/initrd.c:69-100 | where a lookup in an archive of such files points, the file's own data lies, with its size |
| `Ustar.DirectoryOfArchive` | kernel/initrd.c:129-176 | for visible files of this kind with components of up to 99 characters, what readdir walks through for any directory is the listing of the archive's paths |
| `Ustar.PrefixIsIgnored` | kernel/initrd.c:69-151 | a concrete archive of lib/x that shows x at the top level and no lib/x |
| `Ustar.FullNameIsOverrun` | kernel/initrd.c:69-151 | any file whose name uses all 100 bytes before a digit is not seen under its path |
| `Leb128.Leb128U` | scripts/gen_wasm_fixtures.py:68-78 | the loop terminates with the unsigned encoding |
| `Leb128.Leb128S` | scripts/gen_wasm_fixtures.py:81-94 | the loop terminates with the signed encoding, for either sign |
| `Leb128.UnsignedRoundTrip` | scripts/gen_wasm_fixtures.py:68-78 | every number decodes back and leaves following bytes untouched |
| `Leb128.UnsignedShortest` | scripts/gen_wasm_fixtures.py:68-78 | no byte string that decodes to a number is shorter than its encoding |
| `Leb128.SignedRoundTrip` | scripts/gen_wasm_fixtures.py:81-94 | every integer decodes back and leaves following bytes untouched |
| `Leb128.SignedShortest` | scripts/gen_wasm_fixtures.py:81-94 | the signed encoding is shortest too |
| `Leb128.VecRoundTrip` | scripts/gen_wasm_fixtures.py:97-99 | a vector of items of any decodable kind comes back, leaving following bytes untouched |
| `Leb128.NameRoundTrip` | scripts/gen_wasm_fixtures.py:102-105 | so does a length-prefixed byte string |
| `Leb128.SectionRoundTrip` | scripts/gen_wasm_fixtures.py:108-109 | so does a section |
| `WasmItems.CharReadsBack` | scripts/gen_wasm_fixtures.py:102-105 | the UTF-8 bytes of any character decode back to it in front of anything |
| `WasmItems.OnlyEncodingDecodes` | scripts/gen_wasm_fixtures.py:102-105 | and no other bytes do: what decodes to a character starts with its UTF-8 bytes |
| `WasmItems.TextRoundTrip` | scripts/gen_wasm_fixtures.py:102-105 | any string, encoded and length-prefixed, comes back, leaving following bytes untouched |
| `WasmItems.FuncTypeRoundTrip` | scripts/gen_wasm_fixtures.py:112-113 | so does a function type |
| `WasmItems.ImportRoundTrip` | scripts/gen_wasm_fixtures.py:116-117 | so does a function import |
| `WasmItems.ExportRoundTrip` | scripts/gen_wasm_fixtures.py:120-121 | so does an export |
| `WasmItems.MemoryRoundTrip` | scripts/gen_wasm_fixtures.py:124-127 | so does a memory, with or without maximum |
| `WasmItems.CodeRoundTrip` | scripts/gen_wasm_fixtures.py:130-133 | so does a code entry |
| `WasmItems.DataRoundTrip` | scripts/gen_wasm_fixtures.py:136-145 | so does an active data segment, in both forms |
| `WasmItems.ItemsUndone` | scripts/gen_wasm_fixtures.py:97-145 | all these kinds are decodable items, so vectors of any of them come back |
| `Leb128.ModuleRoundTrip` | scripts/gen_wasm_fixtures.py:148-193 | a module's section list comes back from its bytes |
| `WasmItems.FixtureRoundTrip` | scripts/gen_wasm_fixtures.py:151-229 | a module with any of the type, import, function, memory, export, code and data sections, in this order, comes back from its bytes, item by item |
| `Leb128.ModulesAreDistinct` | scripts/gen_wasm_fixtures.py:148-193 | two different section lists never share their bytes |
| `Gcp2Wit.EachSyscallInOneInterface` | scripts/gcp2wit.py:107-134 | every syscall is in the bucket of its interface as often as in the manifest and in no other, and buckets are ordered by number |
| `Gcp2Wit.SortIsStable` | scripts/gcp2wit.py:132-133 | the sort orders by number, loses nothing, and keeps the input order of equal numbers |
| `Gcp2Wit.PartitionByIface` | scripts/gcp2wit.py:124-134 | the dictionary has the canonical interfaces and every other one in use, each with its bucket |
| `Gcp2Wit.PopulatedExactly` | scripts/gcp2wit.py:189-194 | the document has and imports exactly the interfaces some syscall falls into |
| `Gcp2Wit.PopulatedDistinct` | scripts/gcp2wit.py:189-194 | the interfaces of the document are pairwise different pledges |
| `Gcp2Wit.DocumentOpenings` | scripts/gcp2wit.py:155-206 | the lines of the document that open an interface block are those of its interfaces, one each, in order |
| `Gcp2Wit.PrintedOnceIff` | scripts/gcp2wit.py:155-206 | no import line is repeated, and no line of the document that opens an interface block, if and only if the interfaces in use have different identifiers |
| `Gcp2Wit.TwoPledgesOneIdent` | scripts/gcp2wit.py:101-104 | a concrete manifest whose document imports and opens one identifier twice |
| `Gcp2Wit.KeyOrderIrrelevantIff` | scripts/gcp2wit.py:184-209 | no permutation of the manifest's keys changes the document if and only if syscalls of one interface with the same number have the same identifier |
| `Gcp2Wit.ShuffleShows` | scripts/gcp2wit.py:184-209 | a concrete manifest of two tied syscalls whose order shows |
| `Gcp2Wit.EmitErrorVariant` | scripts/gcp2wit.py:137-143 | the loop's lines are the interface's error variant |
| `Gcp2Wit.EmitInterface` | scripts/gcp2wit.py:155-167 | the loop's lines are the interface block, one line per syscall in order; nothing for an empty one |
| `Gcp2Wit.EmitWorld` | scripts/gcp2wit.py:170-181 | the loop's lines import the given interfaces in order |
| `Gcp2Wit.Generate` | scripts/gcp2wit.py:184-209 | the lines built are the document of the manifest |
| `JsonEscape.JsonAppend` | user/gash.c:1799-1824 | writes the longest prefix of the string whose escaped text leaves room for a NUL, the NUL behind it, and no other byte |
| `JsonEscape.TakenIsLongest` | user/gash.c:1799-1824 | a prefix fits if and only if it is no longer than the one taken, so an escape pair is never split |
| `JsonEscape.PrintDecoded` | user/gash.c:2091-2102 | the index loop prints the decoding of the token |
| `JsonEscape.RoundTripIff` | user/gash.c:2091-2102 | printing undoes escaping if and only if the string has no carriage return |
| `JsonEscape.CarriageReturnIsLost` | user/gash.c:2091-2102 | a carriage return and the two characters backslash and r print alike |
| `JsonEscape.TruncationIsPrefix` | user/gash.c:1799-1824 | however little room there is, what was written prints as a prefix of the string, and as all of it if and only if the escaped text fits |
| `JsonEscape.ParseString` | user/json.c:89-157 | the tokenizer's loop finds the closing quote, an unknown escape or the end of the text as the scan does |
| `JsonEscape.QuotedRoundTrip` | user/gash.c:2091-2102 | an escaped string between quotes inside any text: the tokenizer stops at its own closing quote, and printing the token gives the string back if and only if it has no carriage return |

## Left out

- The 64-bit wrap of `total_written`, `disk_cursor`, the loss counters and the log's `head` and sequence numbers; they are unbounded here.
- PidHash.PidIndex.Count: does not model the 32-bit wrap of the count, because the index would need 2^32 live nodes.
- AuditReboot.RestartKeepsIff: the next kernel starts on the same day and attaches once, as the boot code does; a stop before anything was written to the day's file is not covered, because nothing of this run is in it then.
- `audit_unsubscribe` running inside a broadcast of another processor; subscribe, unsubscribe and the broadcast to one slot are whole steps.
- Locks, memory ordering and lock timeouts, beyond a step that finds the per-subscriber lock taken.
- The file system behind the audit log: its calls are outcomes chosen by the step; creating the directory is not modelled.
- The page allocator and the page tables behind `elf_load`: a page is granted or refused.
- ElfLoader.LoadAll: segments whose address and size in memory add up to more than 64 bits are excluded, because the source then computes addresses outside the page it fills, which C leaves undefined.
- Validation of the ELF header, and the stack and entry point set-up of `elf_load`.
- Initrd.Lookup: archives whose chain of headers runs out of the memory they are in are excluded, because the source reads past it; the 64-bit wrap of sizes of 22 and more octal digits is left out.
- Ustar.NamesArePathsIff: files with a name of 100 bytes under a prefix and a slash in the numeric fields behind the name are excluded, because those fields hold digits.
- Ustar.AllReachedIff: archives whose shown sizes lead out of the memory they are in are excluded, because the source reads past it.
- Vsnprintf.KvSnprintf: formats whose behaviour C leaves undefined (missing or mistyped arguments, numbers outside int) are excluded.
- PanicEmit.Serial.SDec: excludes INT64_MIN, whose negation C leaves undefined; its callers pass 32-bit numbers.
- The framebuffer banner, the claim of the panic by one processor and the halt behind it.
- The serial mirror of the log, the reserved bytes of a log record and the subsystem name table, which is a parameter.
- KlogStore.Ring.ReadFiltered: a writer running at the same time is not modelled.
- OopsParse.ParseOops: the patterns' character classes are ASCII's, not Unicode's.
- SweepMeaning.RewritingKeepsMeaning: what klog prints is stated for clean groups without zero bytes only; outside them the texts can still agree by chance, as for an escaped percent sign before a letter that is no conversion.
- `maybe_insert_include`, `process_file` and the file table of `klog_sweep.py`, and the wording rules of `derive_level` beyond its use in the output line.
- Gcp2Wit.Generate: case folding and white space are ASCII's; joining the lines into one string, the command line and `--check` are left out.
- The instruction bytes of the fixtures of `gen_wasm_fixtures.py` and the host validation.
- The rest of jsmn and of the shell: object and array tokens, the request, printing and commands.
- The convenience writers `audit_write_*`, event name tables, BCD decoding and CMOS access of `rtc_init`: field copying and port input.
