# Dafny model of MemProcFS

This project models the algorithmic parts of MemProcFS and proves what they promise: the text converters, the
futex-based lock with the connection pools built on it, the search and listing of the memory map plugin, the
planning and running of forensic scans, the timeline index, and three smaller structures. Every claim holds for
all inputs, all runs and all interleavings, unless a line under "Left out" says otherwise. `dafny verify
dfyconfig.toml` checks the whole project.

**Text converters** (`vmm/charutil.c`). A text is a NUL-terminated array; lengths are DWORDs with their
wrap-around. `Transcode` holds the DWORD arithmetic, the flags, the placement of a result (`Place`, `Replied`)
and the expansion of a text character by character (`FlatMap`). `Unicode` defines UTF-8 after RFC 3629 section 4
and UTF-16 after RFC 2781 section 2 twice, by encoding formulas and by a grammar, and proves the two equal.
`CountPass` and `FillPass` are the forward and backward passes; `Wide` (WtoU, UtoW), `Narrow` (AtoU, UtoJ,
AtoJ), `Json` (WtoJ), `Csv` (UtoCSV) and `Validate` (UtoU) run them over arrays. AtoU, UtoU, UtoJ, AtoJ and
UtoCSV are proved with source and destination possibly the same array: the contract is stated about the text as
it was before the call, so converting in place gives the same bytes as converting into another buffer.
`RoundTrip`, `NulFree`, `Malformed`, `Truncation`, `CsvRow` and `Arena` build the properties on top.

**Lock and pools** (`vmm/oscompatibility.c`, `vmm/fc.c`, `vmm/infodb.c`). `FutexLock` and `EventPool` are step
systems: one atomic operation of one thread per step, any number of threads, any order. Properties are about
every reachable state. `LockedPool` composes them: the pool on four real locks refines the pool on four words.
`LockedRuns` is the converse: all that the pool can do on words it can do on locks.

**Memory map plugin** (`m_vmemd/m_vmemd.c`). `QFind` is the power-of-two search over byte offsets, `VMemD` the
listing walk, the file names and the way from a name back to its entry.

**Forensics** (`vmm/fc.c`). `Coalesce` merges page table entries into ranges, `VirtualScan` and `PhysicalScan` are
the workers and the double-buffered reader as step systems, `Timeline` is the index.

**Structures.** `PluginTree` is the nested dictionary of `files/vmmpyplugin.py`, `VfsList` the chained list of
`memprocfs/vfslist.c`, `SidText` the security identifier printer and parser.

## Where the code does less than one would expect

* The converters to JSON count in DWORDs. The sizes are right if and only if they are below 4 GB
  (`Transcode.CountersAreExactIff`); above, which takes 700 MB of bytes to be escaped
  (`Json.SizeOfControlBytesWraps`), the caller is told a wrong size, or the fill leaves its buffer
  (`Transcode.RepliedWrapped`).
* `UtoJ` with CHARUTIL_FLAG_TRUNCATE does not check ordinary bytes for room; it fails unless the text fits or the
  first byte that does not fit is one to be escaped (`Truncation.UtoJTruncatesIff`).
* `WtoJ` and `WtoU` followed by `UtoJ` differ in two cases only (`Json.WtoJIsUtoJAfterWtoUIff`): with
  CHARUTIL_FLAG_BAD_UTF8CP_SOFTFAIL, which `WtoJ` does not know, it fails on texts that `WtoU` saves; and `UtoJ`
  reads at most 2^30 bytes, so that a longer result of `WtoU` is cut (`Json.EurosAreCut`). For `AtoJ` the second case
  is the only one (`Json.AtoJIsUtoJAfterAtoUIff`, `Json.LatinIsCut`).
* The failure exit of all converters writes an empty string only if the flags are exactly 6; with other flags
  added, nothing is written (`Transcode.Failed`). The exit of UtoW clears only the low byte of the first
  character (`Wide.FailedW`).
* `UtoW` counts two units for every four-byte form, but writes one for those of values below U+10000. The front of
  the result then stays unwritten, one unit for each of them (`Wide.UtoWGapIff`, `Wide.LongFourLeavesGap`).
* `UtoU` copies one byte more than it takes. That byte is out of bounds exactly if the text taken fills the memory
  it was given in and is copied to another buffer (`Validate.Strays`, `Validate.UnterminatedStrays`).
* The fill loop of `UtoCSV` does not run for fields of more than 2^31 bytes. That happens exactly if the text taken
  has 2^30 bytes and all of them but at most one are quotes; the buffer then gets the closing quote and the NUL only
  (`Csv.UnfilledIff`, `Csv.OnlyQuotesGoUnfilled`).
* `VMemD_Util_qfind` with a single entry of more than 2 GB looks outside the map (`QFind.Find`, exact condition).
* `Fc_SqlReserve` and the drain ignore the result of a wait; exactly those steps break the accounts of the pool
  (`EventPool.StepKeepsInvIff`).
* `FcScanVirtmem_AddRangeKernelProcess` keeps the size of an entry in a DWORD. Exactly if that makes an entry of
  4 GB or more look like one of 1 byte to 512 MB, bytes are scanned that were to be passed over
  (`Coalesce.CoversMeantIff`, `Coalesce.HugeEntryIsMisjudged`).
* A worker of the virtual scan that gets no buffer leaves without a word; if none gets one, nothing is scanned
  (`VirtualScan.ScanCountsEverything`, exact condition).
* `FcScanPhysmem` hands the last but one chunk over twice and the last one never (`PhysicalScan.LastChunkIsLost`).
* `ConvertStringSidToSidA` reads the character before a dash in front with a wrapped index, and counts dashes in a
  byte: with a multiple of 256 dashes plus 1 to 15 it writes more numbers than it has allocated
  (`SidText.Parse`, `SidText.LongTextOverruns`, exact conditions).
* A PTE file whose shown text contains ".vvmem" is opened as a VAD (`VMemD.PteNameReadsBack`, exact condition).
* A timeline line that starts more than 4096 bytes before a position is not found there
  (`Timeline.LookupFindsLineIff`, exact condition).

## Model

| member | source | states |
|---|---|---|
| Transcode.FitIsLongestPrefix | vmm/charutil.c:79-89 | stopping at the first character without room takes the longest prefix that fits: a prefix fits with its terminator if and only if it is no longer |
| Transcode.Prepare | vmm/charutil.c:98-106 | where a result goes for every combination of flags, buffer and allocation outcome, and what the caller is told when it goes nowhere |
| Transcode.FailTail | vmm/charutil.c:121-127 | the failure exit: an empty string for flags exactly 6, else an untouched buffer |
| Transcode.PlaceDecides | vmm/charutil.c:98-106 | which of the five outcomes a call has, told by its flags, pointers and sizes, each if and only if |
| Transcode.CallerSees | vmm/charutil.c:98-127 | what a caller of a converter to bytes sees: with a sufficient buffer and a result pointer, or the flag for the buffer only, the text is there; else a length, fresh memory, or a failure |
| Transcode.CallerSeesFailure | vmm/charutil.c:121-127 | and when the count pass has failed |
| Transcode.CountersAreExactIff | vmm/charutil.c:474-503 | two DWORD counters that add up to the low 32 bits of a size give that size and its NUL if and only if it is below 4 GB |
| Transcode.FitWrappedIff | vmm/charutil.c:474-486 | testing the room with DWORD sums takes at least what fits, and just that if and only if the first sum that does not fit has not wrapped |
| Unicode.Legal8IsEncoding | vmm/charutil.c:267-289 | what the encoding formulas of WtoU yield, for the scalar values, is exactly the grammar of RFC 3629 section 4 |
| Unicode.Legal16IsEncoding | vmm/charutil.c:384-391 | what the encoding formulas of UtoW yield, for the scalar values, is exactly the legal UTF-16 of RFC 2781 section 2 |
| Unicode.Char8RoundTrip | vmm/charutil.c:267-289 | decoding the UTF-8 encoding of a scalar value gives it back |
| Unicode.Parse8Of | vmm/charutil.c:145-163 | characters put together are split again into the same characters |
| Unicode.AnnouncedRanges | vmm/charutil.c:146-151 | which bytes lead a character of which length, which follow, and which do neither |
| FillPass.NextChar | vmm/charutil.c:267-289 | the cursors of a backward fill stand on the last unread character and on its last cell, and go below zero together |
| Narrow.NextByte | vmm/charutil.c:107-118 | a byte-wise fill overwrites no byte of its own source that is still unread |
| Narrow.AtoU | vmm/charutil.c:69-128 | the complete answer of AtoU: result, placement, sizes, failure, rest of the buffer; in place as well |
| Narrow.UtoJ | vmm/charutil.c:465-531 | the complete answer of UtoJ, in place as well; from 4 GB on, what the wrapped size makes of it |
| Narrow.AtoJ | vmm/charutil.c:534-610 | the complete answer of AtoJ, in place as well; from 4 GB on likewise |
| Narrow.EscapesOf | vmm/charutil.c:422-447 | what each of the 256 bytes becomes in JSON |
| Narrow.CountBytes | vmm/charutil.c:79-94 | the count pass takes the prefix the flags allow, and its literal increments, 1 or 5 by threshold, add up as DWORDs to the length of the result |
| Wide.CountWide | vmm/charutil.c:202-253 | the count pass over UTF-16 accepts the characters that parse and fit, and its literal increments add up to the size of what they become |
| Wide.WtoU | vmm/charutil.c:191-301 | the complete answer of WtoU |
| Wide.CountUtoW | vmm/charutil.c:329-353 | the count pass over UTF-8 accepts the characters that parse and fit, and measures two units for each four-byte form, else one |
| Wide.GatherBack | vmm/charutil.c:367-391 | reading one character from its last byte backwards gives its code point |
| Wide.UtoW | vmm/charutil.c:318-405 | the complete answer of UtoW for separate buffers, the unwritten gap in front included |
| Wide.CallerSeesW | vmm/charutil.c:357-405 | what a caller of UtoW sees, in the same terms |
| Wide.UtoWGapIff | vmm/charutil.c:346-391 | the gap is empty if and only if no four-byte form of a value below U+10000 is taken |
| Wide.LongFourLeavesGap | vmm/charutil.c:346-391 | the euro sign in four bytes: one unit of gap |
| Wide.WtoUBound | vmm/charutil.c:202-253 | a result of WtoU has at most three bytes for each unit of the text |
| RoundTrip.WtoUEncodesDecoded | vmm/charutil.c:267-289 | WtoU of well-formed UTF-16 is the UTF-8 encoding of the code points that the forward decoder of RFC 2781 section 2.2 reads |
| RoundTrip.UtoWInvertsWtoU | vmm/charutil.c:331-395 | UtoW(WtoU(w)) = w for every well-formed w, and what lies between is well-formed UTF-8 |
| RoundTrip.WtoUInvertsUtoW | vmm/charutil.c:267-289 | WtoU(UtoW(u)) = u for every well-formed u |
| RoundTrip.SurrogateRunsAreEven | vmm/charutil.c:202-253 | in every text the count pass accepts, maximal runs of surrogates have even length, whatever their order |
| NulFree.ThroughUtf8Buffer | vmm/charutil.c:331-395 | a buffer WtoU has filled from NUL-free text, read by UtoW up to its NUL, gives the text back |
| NulFree.ThroughWideBuffer | vmm/charutil.c:202-289 | the same from UTF-8 by way of a UTF-16 buffer |
| NulFree.ThroughJsonBufferIff | vmm/charutil.c:202-531 | a buffer WtoU has filled from NUL-free text, read by UtoJ up to its NUL or limit, gives what WtoJ gives if and only if the limit does not come first |
| Json.WtoJ | vmm/charutil.c:613-725 | the complete answer of WtoJ; from 4 GB on, what the wrapped size makes of it |
| Json.WtoJIsUtoJAfterWtoUIff | vmm/charutil.c:473-725 | without truncation, WtoJ(w) = UtoJ(WtoU(w)), failures included, if and only if the flag for a soft failure does not save the detour and WtoU(w) is within the 2^30 bytes that UtoJ reads |
| Json.EurosAreCut | vmm/charutil.c:473-725 | 2^29 euro signs, whose UTF-8 is longer than that |
| Json.SizeOfControlBytesWraps | vmm/charutil.c:488-496 | 2^30 control bytes need 6 GB, and the DWORD says 2 GB |
| Json.AtoJIsUtoJAfterAtoUIff | vmm/charutil.c:473-610 | without truncation, AtoJ(a) = UtoJ(AtoU(a)) if and only if AtoU(a) is within the 2^30 bytes that UtoJ reads |
| Json.LatinIsCut | vmm/charutil.c:473-610 | 2^30 bytes 0xff, whose UTF-8 is twice as long |
| Json.AtoUEncodesLatin1 | vmm/charutil.c:107-116 | AtoU is the UTF-8 encoding of U+0000 to U+00FF |
| Json.UnescapeInvertsUtoJ | vmm/charutil.c:422-447 | a reader of RFC 8259 section 7 strings, which rejects raw quotes and control bytes, gives back the text that UtoJ was given |
| Csv.FitCsvIsLongestPrefix | vmm/charutil.c:762-789 | greedy truncation is best although only the first quoting character pays for the quotes |
| Csv.SizeIsField | vmm/charutil.c:757-791 | the sizes added up in the count pass are the length of the field, quotes and doubled quotes included |
| Csv.FieldIsQuotedIff | vmm/charutil.c:757-791 | a field is quoted if and only if the text is empty or has a quote, a space or a comma in it |
| Csv.FieldsOfTexts | vmm/charutil.c:757-818 | four fields to the letter |
| Csv.CountCsv | vmm/charutil.c:757-791 | the count pass accepts the characters that parse and fit, decides on quoting and measures the field |
| Csv.FillCsv | vmm/charutil.c:801-818 | the backward fill puts a field of at most 2^31 bytes and its NUL in place, also over its own source, and changes nothing else; of a longer one it writes the closing quote and the NUL |
| Csv.UtoCSV | vmm/charutil.c:745-828 | the complete answer of UtoCSV, in place as well |
| Csv.UnfilledIff | vmm/charutil.c:801-818 | a field is too long for the fill if and only if the text taken has 2^30 bytes and at least 2^30 - 1 of them are quotes |
| Csv.OnlyQuotesGoUnfilled | vmm/charutil.c:801-818 | 2^30 quotes are such a text |
| CsvRow.RowReadsBack | vmm/charutil.c:801-818 | a reader of RFC 4180 section 2 splits a comma-joined row of fields into the same texts, control bytes replaced by question marks |
| CsvRow.NoControlBytes | vmm/charutil.c:813-815 | no control byte survives |
| CsvRow.TruncationKeepsLongestField | vmm/charutil.c:762-789 | a truncated field is that of the longest prefix whose field fits with its NUL |
| Validate.CountUtoU | vmm/charutil.c:145-164 | UtoU accepts exactly the whole, well-framed characters that fit |
| Validate.UtoU | vmm/charutil.c:131-188 | the complete answer of UtoU, in place as well, and exactly when the copy reads outside the text's memory |
| Validate.UnterminatedStrays | vmm/charutil.c:164-177 | one letter without a NUL, copied to the heap, is such a call |
| Validate.WellFormedIsCopied | vmm/charutil.c:145-180 | UtoU copies well-formed UTF-8 unchanged |
| Malformed.WtoUAcceptsIff | vmm/charutil.c:202-253 | WtoU takes a text if and only if its surrogates, in whatever order, come in runs of even length |
| Malformed.LoneSurrogate | vmm/charutil.c:207-216 | a surrogate without a neighbour ends the text at the caller's limit, under truncation if four bytes more would not fit, and with the flag for a soft failure behind 16 units; else it fails the text |
| Malformed.BadByteInUtoU | vmm/charutil.c:145-164 | a byte that cannot lead fails a text, and so does a lead byte without its tail bytes, unless with them it would reach beyond the caller's limit or, under truncation, beyond the buffer: then the text ends there |
| Malformed.BadByteInUtoW | vmm/charutil.c:331-351 | the same for UtoW, where a form of four bytes is given two units of room and any other one |
| Malformed.BadByteInUtoCSV | vmm/charutil.c:757-791 | the same for UtoCSV, in terms of the size of the field so far |
| Truncation.AtoUTruncates | vmm/charutil.c:79-89 | under truncation the result is that of the longest prefix that fits |
| Truncation.UtoUTruncates | vmm/charutil.c:145-163 | likewise, in whole characters |
| Truncation.TurnedAway | vmm/charutil.c:79-89 | truncation without a buffer, or together with allocation, fails in every converter, whatever the text |
| Truncation.NamesAreStored | memprocfs/vfslist.c:79 | with the flags of a directory listing a well-framed name is always stored, as the longest prefix that fits |
| Truncation.WtoUTruncates | vmm/charutil.c:202-230 | likewise |
| Truncation.UtoWTruncates | vmm/charutil.c:331-351 | likewise, for buffer sizes of either parity |
| Truncation.AtoJTruncatesIff | vmm/charutil.c:544-559 | something that fits is produced, then of the longest prefix, if and only if the first sum that does not fit has not wrapped; a buffer below 4 GB less five bytes suffices |
| Truncation.WtoJTruncatesIff | vmm/charutil.c:624-651 | likewise |
| Truncation.UtoJTruncatesIff | vmm/charutil.c:474-486 | likewise, but for UtoJ the text must also fit as a whole, or the first byte that does not fit be one to be escaped |
| Truncation.UtoJGivesUp | vmm/charutil.c:474-486 | two letters and a buffer of two bytes: AtoU returns one letter, UtoJ fails |
| Arena.CsvHandle.String | vmm/fc.c:223-235 | a field is measured, then written at the end of the arena and recorded if it fits with a byte to spare; else nothing changes |
| Arena.CsvHandle.FileTime | vmm/fc.c:211-221 | the same for a time, which always takes 22 bytes |
| Arena.CsvHandle.Reset | vmm/fc.c:206-209 | forgets all strings |
| Arena.LoansAreDisjoint | vmm/fc.c:206-235 | the strings handed out since the last reset are intact, within bounds and disjoint |
| FutexLock.StepKeepsInv | vmm/oscompatibility.c:507-566 | every step keeps the accounts of the counter and the attention to sleepers |
| FutexLock.AttemptEnds | vmm/oscompatibility.c:507-556 | an acquire under way stays so until it takes the free lock or fails; a try fails only at its exchange, a timed acquire only out of sleep, a blocking one never |
| FutexLock.NoAcquireGivesUpSilently | vmm/oscompatibility.c:507-556 | over whole runs: a thread that is no longer inside its acquire has taken the lock, or has failed in such a step |
| FutexLock.FailureIsUndone | vmm/oscompatibility.c:514-556 | what is left to do of a failed acquire is its decrement |
| FutexLock.SleepEnds | vmm/oscompatibility.c:518-556 | time or a signal makes a sleeping timed acquire return without the lock; woken, or roused in any other way, a sleeper tries the word again |
| FutexLock.TryNeverWaits | vmm/oscompatibility.c:507-516 | a try neither calls the futex nor sleeps |
| FutexLock.WakesOnlyForOthers | vmm/oscompatibility.c:558-566 | a releaser calls the kernel if and only if the lock is taken anew or others are inside |
| FutexLock.ThreadsCanGoOn | vmm/oscompatibility.c:507-566 | every thread but a sleeper has a step to make, and outside it can acquire in any way and release |
| FutexLock.CountIsExact | vmm/oscompatibility.c:507-566 | in every reachable state `c` is `xchg` plus the attempts in flight plus the releasers before their decrement |
| FutexLock.NoLostWakeup | vmm/oscompatibility.c:507-566 | whenever the lock is free and a thread sleeps, another is about to try the word, to call the futex, to decrement or to wake |
| FutexLock.NoStuckSleeper | vmm/oscompatibility.c:507-566 | once every thread is outside or asleep, a sleeper means the lock is taken, and `c` counts taker and sleepers |
| FutexLock.LockGetsTaken | vmm/oscompatibility.c:507-566 | from every reachable state with a free lock and a sleeper, at most three steps of threads under way take the lock |
| FutexLock.MutualExclusion | vmm/oscompatibility.c:507-566 | if only holders release, at most one thread holds the lock, and one does exactly while the word is 1 |
| FutexLock.FailedAttemptsCancel | vmm/oscompatibility.c:507-556 | failed tries and timeouts leave `c` balanced: with no thread inside, `c` equals `xchg` |
| FutexLock.StepsOnWord | vmm/oscompatibility.c:507-566 | to a client, a step takes the free word, frees the taken one or leaves it alone |
| EventPool.StepKeepsInvIff | vmm/fc.c:50-85 | a step of client or closer keeps the pool's accounts if and only if it is not an ignored failed wait |
| EventPool.ReserveStarts | vmm/fc.c:50-58 | a reservation waits for the first event in the single-threaded phase and scans all events after it |
| EventPool.ScanTakesFirstFree | vmm/oscompatibility.c:635-645 | a scan takes the first signalled event it comes to, round the end, and changes nothing else |
| EventPool.ScanEndsInFour | vmm/oscompatibility.c:635-645 | in every reachable state with a signalled event, a client that scans has a connection after at most four tries of its own |
| EventPool.ReservationsAreExclusive | vmm/fc.c:50-85 | no connection is reserved twice, and an event is unsignalled exactly while its connection is reserved or drained |
| EventPool.ClosedConnectionsAreFree | vmm/fc.c:1559-1579 | a connection is closed only when nobody holds it, and nobody gets hold of a closed one |
| EventPool.DrainNeverStuck | vmm/infodb.c:772-783 | once every connection is returned the drain does not wait |
| EventPool.DrainEnds | vmm/fc.c:1569-1579 | and gets to its end by two steps for each connection left |
| EventPool.DoneHasClosedAll | vmm/fc.c:1569-1579 | a drain that is done has closed every connection; before it starts none is closed |
| EventPool.DrainWaitsForHolder | vmm/fc.c:1569-1579 | closing may begin while connections are in use, and the drain then stays at a connection until it is returned |
| EventPool.PoolCanBeClosed | vmm/fc.c:1559-1579 | from every reachable state there is a run, without failing waits, that lets every client get and return what it waits for and ends with all connections closed |
| EventPool.ReturnSignalsOwnEvent | vmm/infodb.c:56-66 | a return passes over the other connections and signals its own event, which is unsignalled |
| EventPool.InterruptedWaitSharesConnection | vmm/fc.c:54-56 | a run in which an interrupted wait gives two clients the same connection |
| EventPool.InterruptedDrainClosesUsedConnection | vmm/fc.c:1569-1579 | a run in which an interrupted wait of the drain closes a connection that a client has |
| LockedPool.RefinesPool | vmm/oscompatibility.c:580-655 | every run of clients, drain and four locks is a run of the pool: waits and SetEvent are single steps, what else happens inside the locks does not show |
| LockedPool.RefinesLock | vmm/oscompatibility.c:507-566 | every such run is a run of each lock |
| LockedPool.ReservationsAreExclusive | vmm/fc.c:50-85 | with undisturbed waits no connection is reserved twice, and its lock is taken exactly while it is reserved or drained |
| LockedPool.SleepersWaitForHolder | vmm/infodb.c:772-783 | once all threads have finished what they can, a client or drain asleep on an event means that a client holds its connection |
| LockedPool.SecondClientSleeps | vmm/fc.c:50-58 | a run to such a state: one client holds connection 0, another sleeps on its event |
| LockedPool.FreeEventGetsTaken | vmm/oscompatibility.c:580-592 | an event that is free while somebody sleeps on it is taken within three steps of threads under way |
| LockedPool.ScanEnds | vmm/oscompatibility.c:635-645 | on real locks, from every reachable state with a signalled event, a client that scans gets the first one from its place on by at most twelve steps of its own |
| LockedRuns.PoolRunsAreMade | vmm/oscompatibility.c:507-655 | the converse of RefinesPool: every run of the pool, waits that fail only for taken events, is made by clients, drain and four locks, each step by a whole call |
| LockedRuns.WholeCanBeClosed | vmm/fc.c:1559-1579 | on real locks, too, whenever nobody is inside a lock function, closing can be carried out to its end |
| QFind.Find | m_vmemd/m_vmemd.c:60-92 | returns an entry that compares equal if and only if there is one, with logarithmically many comparisons; reads outside the map in exactly one case |
| QFind.Bits | m_vmemd/m_vmemd.c:67 | the first loop finds the bit length of `cMap - 1` |
| VMemD.List | m_vmemd/m_vmemd.c:248-300 | without a PTE map nothing; else the two-pointer walk lists every VAD, then exactly the PTE ranges whose base no VAD contains |
| VMemD.ListedIff | m_vmemd/m_vmemd.c:248-300 | a file is listed if and only if it is that of a VAD, or that of a PTE range whose base no VAD contains |
| VMemD.PointerDecides | m_vmemd/m_vmemd.c:274-279 | with the pointer past all VADs that end below an address, the VAD under it alone decides whether any contains the address |
| VMemD.FileNameU | m_vmemd/m_vmemd.c:32-54 | the last 62 bytes of what follows the last backslash, forbidden ASCII replaced |
| VMemD.ShownIsTail | m_vmemd/m_vmemd.c:32-54 | what is shown of a text is its end, at most 62 bytes and nothing from before a backslash, byte by byte |
| VMemD.FileSizes | m_vmemd/m_vmemd.c:272-300 | a file is as long as its range |
| VMemD.NameParts | m_vmemd/m_vmemd.c:252-271 | a name is 0x, 16 or 8 lower-case digits, a dash and the text if there is one, and the suffix |
| VMemD.VadNameReadsBack | m_vmemd/m_vmemd.c:24-30 | a VAD's name leads back to its address and kind if and only if the address fits the model's name format |
| VMemD.PteNameReadsBack | m_vmemd/m_vmemd.c:24-30 | a PTE range's name does so if and only if, besides, its text does not contain ".vvmem" |
| VMemD.Open | m_vmemd/m_vmemd.c:194-202 | finds the entry with the wanted address in the map the name asks for, if there is such a map and it has one |
| VMemD.VadReopens | m_vmemd/m_vmemd.c:249-272 | the file listed for a VAD opens that VAD |
| VMemD.PteReopens | m_vmemd/m_vmemd.c:273-300 | the file listed for a PTE range opens that range |
| Coalesce.ScanContext.AddRangeKernelProcess | vmm/fc.c:1182-1221 | the ranges are in order, disjoint, at most 0x20000000 bytes, cover exactly the entries that pass the test on their DWORD size without splitting one, add up to their bytes, and are added up in the counters |
| Coalesce.NeighboursExceedLimit | vmm/fc.c:1204-1210 | two ranges that touch, the second one not empty, are together over the limit |
| Coalesce.CoversMeantIff | vmm/fc.c:1193-1210 | the ranges are the bytes of the entries of at most 512 MB if and only if no entry of 4 GB or more has a DWORD size of 1 byte to 512 MB |
| Coalesce.HugeEntryIsMisjudged | vmm/fc.c:1193-1210 | an entry of 4 GB and a page has one |
| Coalesce.AllAdded | vmm/fc.c:1212-1216 | for PID 4 no range is held back |
| Coalesce.AddedIff | vmm/fc.c:1212-1216 | for other processes a range is passed on if and only if the system process does not have it |
| VirtualScan.Popped.ScanVirtmem | vmm/fc.c:1316-1340 | the chunks of a range follow each other, all of 32 MB but the last; cbZero is the bytes of those found zero or unreadable, cbIngest those of the others |
| VirtualScan.TilesCover | vmm/fc.c:1316-1340 | such chunks contain every byte of the range once and no other |
| VirtualScan.ItemsAreTiled | vmm/fc.c:1316-1365 | in every run the items popped and queued are those queued at the start, each once, and the chunks a worker has counted tile every item it has popped, up to where it is with the one in hand |
| VirtualScan.EveryItemIsTiled | vmm/fc.c:1316-1365 | when all workers have left and some had its buffer, every item queued has been popped once and its chunks tile it |
| VirtualScan.TilingIsUnique | vmm/fc.c:1316-1340 | there is one such tiling only, so these are the chunks of ScanVirtmem |
| VirtualScan.StepConserves | vmm/fc.c:1298-1365 | no step of a worker changes the sum of bytes counted, in hand and queued |
| VirtualScan.ScanCountsEverything | vmm/fc.c:1298-1365 | when all workers have left, cbZero + cbIngest and the bytes still queued are the bytes queued at the start; all of them are counted if and only if some worker got its buffer or there were none |
| VirtualScan.CountersTellVerdicts | vmm/fc.c:1298-1340 | after every run of the workers each counter has grown by the bytes of what was found with its verdict |
| VirtualScan.EveryScanEnds | vmm/fc.c:1342-1365 | no run has more than two steps for each worker, one for each item and one for each chunk, and every run can be continued until all workers have left |
| PhysicalScan.SchedulesIntoIdleBuffer | vmm/fc.c:1015-1028 | no read is scheduled into a buffer still being filled, and none is handed over while being filled |
| PhysicalScan.LoopHandsOverInOrder | vmm/fc.c:1015-1038 | the loop hands over every readable chunk but the last, once and in order |
| PhysicalScan.LastChunkIsLost | vmm/fc.c:1039-1046 | what has been handed over at the end and how often: of the readable chunks the last but one twice, the last never, all others once; all have been if and only if the last one is not readable |
| PhysicalScan.TurnsOfLoop | vmm/fc.c:1015 | the number of turns for every physical memory size |
| PhysicalScan.NeverStuck | vmm/fc.c:1015-1046 | until the scan has ended, main loop or work item can go on |
| PhysicalScan.EveryRunEnds | vmm/fc.c:1015-1046 | no run has more than 4n + 1 steps for n chunks, and every run can be continued to the end |
| Timeline.OffsetIsPrefixSum | vmm/fc.c:738 | the window sum over the unordered table is the sum of the lengths before the line, overall and per type |
| Timeline.LinesLieEndToEnd | vmm/fc.c:738 | the lines of a file follow each other from 0 to the end without gaps |
| Timeline.NumberIsPlace | vmm/fc.c:738 | SUM(1) numbers the lines of a type from 1 |
| Timeline.ListingExists | vmm/fc.c:738 | every table with unique keys has a listing in this order |
| Timeline.NewestComeFirst | vmm/fc.c:738 | later times come first, and for the same time the row inserted first |
| Timeline.WidthsOfARow | vmm/fc.h:302-304 | which length goes with which format, and its fixed part |
| Timeline.TypeSizesAddUp | vmm/fc.c:740-757 | the file sizes of the types add up to that of the file of everything |
| Timeline.LookupFindsLineIff | vmm/fc.c:903-926 | the lookup returns the line at a position if and only if it starts at most 4096 bytes before it, else nothing |
| Timeline.OneLineAt | vmm/fc.c:903-926 | at most one line covers a position |
| Timeline.ShortLinesAreFound | vmm/fc.c:903-926 | with lines of at most 4097 bytes every position in the file is found |
| PluginTree.Registry.Register | files/vmmpyplugin.py:302-313 | succeeds if and only if no file, dynamic directory or existing entry is in the way, and tells which exception is raised; a failure leaves the tree unchanged |
| PluginTree.SplitAtSlash | files/vmmpyplugin.py:303 | what is on either side of a slash is split on its own |
| PluginTree.SplitWord | files/vmmpyplugin.py:303 | a text without slashes is one component, or none if empty |
| PluginTree.SplitInvertsJoin | files/vmmpyplugin.py:303 | splitting components joined by slashes gives them back |
| PluginTree.CanRegisterIff | files/vmmpyplugin.py:302-313 | registering succeeds if and only if all that lies above the path are plain directories or nothing, and the path is new or may be overwritten; a file is hit if and only if it is what comes first there |
| PluginTree.Registry.FileRegister | files/vmmpyplugin.py:290-313 | stores the file, or leaves the tree unchanged |
| PluginTree.Registry.FileRegisterDirectory | files/vmmpyplugin.py:335-346 | stores the empty directory, or leaves the tree unchanged |
| PluginTree.BelowIsGet | files/vmmpyplugin.py:305-312 | what the walk finds in the dictionary it reaches is what the path map says |
| PluginTree.StoredGet | files/vmmpyplugin.py:302-346 | as a map from paths: the path names the new node, paths on the way name directories, paths below name nothing, all others are unchanged |
| PluginTree.Registry.FileUnregister | files/vmmpyplugin.py:365-374 | succeeds if and only if the path names something, and tells which exception is raised; a failure leaves the tree unchanged |
| PluginTree.RemovedGet | files/vmmpyplugin.py:365-374 | removal unmaps the path and what is below it, and nothing else |
| PluginTree.Registry.FileRetrieve | files/vmmpyplugin.py:378-402 | in terms of the path map: finds what the path names, or what the callback of the first dynamic directory above it lists, and tells which exception is raised |
| PluginTree.LookupEnds | files/vmmpyplugin.py:378-402 | how a lookup ends, told by what its path and the first file or dynamic directory on the way are |
| PluginTree.RegisteredIsRetrieved | files/vmmpyplugin.py:378-402 | what has just been registered, and nothing else, is what a lookup finds |
| PluginTree.OtherLookupsStay | files/vmmpyplugin.py:302-402 | registering changes no lookup but those of the paths above and below |
| VfsList.Directory.Add | memprocfs/vfslist.c:54-72 | appends one entry, or drops it when a needed node cannot be allocated; all nodes but the last stay full |
| VfsList.Directory.ListDirectory | memprocfs/vfslist.c:176-193 | yields the entries in the order in which they were added |
| VfsList.Directory.GetSingle | memprocfs/vfslist.c:204-226 | returns the first entry whose name matches, ignoring case |
| VfsList.SameNameIff | memprocfs/vfslist.c:211-224 | names match if they differ in the case of letters A to Z only |
| VfsList.FlatIndex | memprocfs/vfslist.c:54-72 | entry k is in cell k % 12 of node k / 12 |
| VfsList.FirstMatch | memprocfs/vfslist.c:211-224 | the match found has no earlier one, and none found means none exists |
| SidText.Print | vmm/oscompatibility.c:416-438 | succeeds if and only if the identifier is valid and the text gets its memory; the text and its NUL fit into 64 + 12c bytes |
| SidText.LocalSystem | vmm/oscompatibility.c:416-438 | the identifier of the local system is S-1-5-18 |
| SidText.ValidIff | vmm/oscompatibility.c:416-424 | which identifiers are valid, in numbers |
| SidText.Parse | vmm/oscompatibility.c:375-406 | accepts exactly the texts of 1 to 15 dash-separated subauthorities and returns their numbers; reads outside the text exactly for a dash in front; writes outside its memory exactly if the byte count of the dashes is 1 to 15 and not the true one |
| SidText.LongTextOverruns | vmm/oscompatibility.c:375-406 | a text of 257 dashes does so |
| SidText.TurnedDown | vmm/oscompatibility.c:385-391 | dashes in a row or at the end, no dash, or more than 15 subauthorities |
| SidText.NumbersRead | vmm/oscompatibility.c:394-404 | how a number is read: sign, saturation, and where it ends |
| SidText.PrintedIsParsed | vmm/oscompatibility.c:375-438 | parse(print(sid)) = sid for every valid identifier (MS-DTYP section 2.4.2) |
| SidText.CanonicalIsPrinted | vmm/oscompatibility.c:375-438 | print(parse(s)) = s for every text of canonical numbers in range |
| SidText.ParsedIsValid | vmm/oscompatibility.c:375-406 | whatever the parser accepts can be printed |

## Left out

- Narrow.UtoJ: once the wrapped size has led to a fill, only that it leaves its buffer is told; AtoJ and WtoJ likewise.
- Wide.UtoW: source and destination are separate buffers, since a three-byte character shrinks when converted in place.
- Wide.WtoU: RoundTrip speaks of well-formed UTF-16; a low surrogate before a high one is accepted by the code, and only lengths and cursors are covered for it.
- Validate.UtoU: of a call that reads outside its memory only that is told; buffers overlap completely or not at all, as for all converters.
- QFind.Find: assumes at most 2^31 entries, beyond which the shift count of the code is out of range for its type.
- SidText.Parse: pointers of 64 bits, for which the wrapped index leaves the text; texts below 4 GB; the byte layout of the binary form is not modelled.
- Arena.CsvHandle.String: the string is not itself inside the arena; Util_FileTime2CSV is a parameter, the at most 21 bytes it writes.
- FutexLock.NoLostWakeup: fewer than 2^32 - 1 threads, so that the counter does not wrap; priorities and fairness are not modelled.
- EventPool.ReservationsAreExclusive: every handle is returned once by its holder, nobody waits when closing begins, and manual-reset events and finite timeouts are not modelled.
- LockedPool.SleepersWaitForHolder: no wait ends by a signal, after which a client or the drain goes on without the event; clients and drain are different threads.
- PhysicalScan.LoopHandsOverInOrder: runs without abort; the work queue runs every item and signals its event; which reads succeed is a parameter.
- VirtualScan.ScanCountsEverything: runs without abort; the statistics counters do not wrap, and the percentage shown is left out.
- Coalesce.ScanContext.AddRangeKernelProcess: runs without abort; the scan list is a sequence without its size limit, and whether it has a key is a parameter.
- Timeline.LookupFindsLineIff: the SQL is modelled as sums and maxima over sequences; line assembly and the string table are not.
- PluginTree.Registry.FileRetrieve: exceptions raised by a listing callback itself.
- PluginTree.Registry.Register: the nested dictionaries are maps by value inside an object, so that aliasing between dictionaries is not captured; the expansion of {by-user} is left out.
- VfsList.Directory.Add: takes the entry as it is stored; its name is produced by UtoU and a character table that are not applied here, and the directory cache is left out.
- VMemD.List: the maps are given; sprintf never truncates, since a name has at most 87 bytes; reading and writing of the memory behind an entry is left out.
- LocalAlloc succeeds or fails as a parameter tells; out-parameters that are null only suppress a store.
- WtoW is WtoU followed by UtoW over an internal buffer and would add no new argument.
- FixFsName, PathSplitFirst, HashPathFs and SplitList: splitting and sanitising with easy or no guarantees.
- The SLIST functions, which only hold the lock around a pointer update.
- SQLite, LeechCore, file systems, plugins and user interfaces: input and output.
