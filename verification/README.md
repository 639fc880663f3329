# WaffleOS and OSLib, verified

A Dafny model of the parts of the WaffleOS kernel and of its OSLib library that compute
something exactly or keep a linked structure sound, with proofs of what those parts are for.
`dafny verify dfyconfig.toml` checks the whole project.

| file | what it models |
|---|---|
| `Bits.dfy`, `Powers.dfy`, `CStrings.dfy` | 32-bit words, shifts, powers, C strings: what the other modules share |
| `Mantissa.dfy` | what shift-and-subtract division does to mantissas of any width |
| `Doubles.dfy` | IEEE doubles as two words; magnitudes as whole numbers of 2^-1074 |
| `Fmod.dfy`, `Fmodf.dfy` | `fmod` and `fmodf`: shift and subtract on mantissas of two words and of one |
| `Remainder.dfy` | `remainder`, on top of `fmod`, with ties to even |
| `Heap.dfy`, `HeapRuns.dfy` | the kernel's `malloc` and `free`, and what a client can rely on over a run |
| `BulkCopy.dfy` | the kernel's word-at-a-time `memcpy` and `memset` |
| `Uri.dfy`, `UriCode.dfy` | the HTTP client's URI parser and printer, and their round trip |
| `UriReferences.dfy` | texts without scheme or authority, and the texts the parser refuses |
| `Fat.dfy` | the FAT12 file reader of the second boot stage |
| `Line.dfy` | the Bresenham line of the graphics context |
| `Ticks.dfy` | OSLib's 16-bit tick counter and its microsecond conversion |
| `Events.dfy` | OSLib's timed-event queue as two sequences: posting and deleting |
| `WakeUps.dfy`, `WakeUpRuns.dfy` | its wake-up, with handlers that post and delete: when nothing is lost, what is fired, whole runs |
| `EventPool.dfy` | the same queue as links in its pool |
| `Periods.dfy` | the queue over time: which wake-up calls an event |
| `Partition.dfy` | OSLib's fixed-partition allocator |
| `NumberText.dfy`, `NumberReading.dfy` | `ucvt`, `dcvt`, `strtou`, `strtoi`: printing and reading numbers |
| `Strtol.dfy`, `StrtolStandard.dfy` | `strtol`, and what the C standard asks of it |
| `Random.dfy`, `RandomPeriod.dfy` | `rand`, its arithmetic and its period |

Code that works step by step is modelled by classes and methods with loops. Each such method is
proved against a function of its inputs or of the old state, and what the code is for is proved of
those functions.

Conventions. `int`, `long`, `size_t` and pointers have 32 bits, as on i386. Unsigned arithmetic
wraps explicitly; where the source relies on a signed result that does not overflow, that is proved
(`Fmod`, `Random`, `Strtol`) or stated exactly (`Line`), and in `strtoi`, `PITSPEC2USEC` and
`PITSPEC2TIMESPEC` a signed overflow is taken to wrap in two's complement. `a | b` of words with no
bit in common is their sum, and each use proves that there is none. A C string is the sequence of its characters without the terminator.
A disk read is a total function from a block address to a sector. `TIMESPEC_A_GT_B` compares
seconds, then nanoseconds.

Where the code and what is expected of it part ways, the code is modelled, the exact condition is
proved for all inputs, and one input on the wrong side of it is worked out:

* Printing a well-formed URI and parsing the text gives the record back if and only if the user
  information holds no '@' and, when it is empty, no other field does; and, where neither port nor
  path ends the host, if and only if there is nothing but a scheme and a host (`Uri.RoundTripIff`).
  The parser takes the first '@' of the whole rest of the text for the end of the user information,
  and looks for a colon or a slash to end the host. The user `a@b` is lost (`Uri.AtSignLost`), and
  of `http://h?q` the query (`Uri.QueryInHost`).
* A record without scheme and host comes back if and only if its path does not start with scheme
  characters and a colon (`UriReferences.ReferenceRoundTripIff`); `a:b` does not
  (`UriReferences.PathTaken`).
* `uri_to_string` returns 1 whenever the buffer size is not 0, also when the text was cut
  (`UriCode.UriToString`), because `snprintf` here returns the number of characters it kept.
  `UriCode.CutAndAccepted` prints `/index` into three characters and gets `/i` and 1.
* `strtol` stops where the C standard says if and only if the digits are not followed by one of the
  six characters between 'Z' and 'a' that `isalpha` lets through and the base admits, and a `0x`
  prefix is followed by a digit (`StrtolStandard.EndIsStandard`). The value is right if and only if
  no such character follows or the number is at the end of the range without it
  (`StrtolStandard.ValueIsStandard`). In base 10 `1_` is read to its end, as 18, and of `0x` in base
  16 nothing is taken, where the standard takes the 0 (`StrtolStandard.StrayAndBarePrefix`).
* Reading back a printed number gives the number if and only if no leading spaces were printed and,
  unsigned, no plus sign, or the number is 0; signed, the least number is lost as well
  (`NumberText.UnsignedRoundTrip`, `NumberText.SignedRoundTrip`); one number for each case is in
  `NumberText.NotReadBack`.
* `strtou` and `strtoi` flag an overflow exactly when some digit makes the wrapped value smaller than
  it was before (`NumberText.AccWraps`). No value in range is flagged (`NumberText.AccExact`), but a
  value out of range may not be either (`NumberText.FlagExactIff`): ten nines are read as 1410065407
  (`NumberText.MissedOverflow`).
* In the bases above ten a number that `strtou` or `strtoi` reads up to one of the six characters
  between '9' and 'A' is given as 0 (`NumberReading.StrtouReads`, `NumberReading.StrtoiReads`), for
  instance `5:` in base 16 (`NumberReading.ColonReadsZero`).
* The reported microseconds are the true ones if and only if they fit in 32 bits, which is for 71
  minutes (`Ticks.UsecTrueIffFits`, `Ticks.UsecWraps`). The seconds and nanoseconds filled in are
  right if and only if the milliseconds of whole periods fit in a `long`, which is for 24.8 days
  (`Ticks.TimeSpecRightIffFits`). The ticks counted are the ticks elapsed if and only if every
  reading comes before the hardware counter has gone round (`Ticks.CountedIffPrompt`): a first
  reading after 65536 ticks counts none (`Ticks.LateReading`).
* The line loop stays within 32-bit ints for all spans up to 715827882, whatever the slope
  (`Line.ShortLinesFit`); a horizontal line does if and only if its span is below 2^30
  (`Line.HorizontalFitsIff`).
* The loop of `periodic_wake_up` goes on with a link it saved before the handler ran. No pool entry
  is lost if and only if each due event it goes on to is still the first pending one
  (`WakeUps.WakeUpWf`); for handlers that only post, if and only if none posts with success, while
  another due event is next, for a time not later than that event's (`WakeUpRuns.PostsWakeUpWf`). A
  handler that posts an event for the time of the next due one loses that event and its entry
  (`WakeUpRuns.LostPost`). One that deletes the next due event sends the loop into the free list
  (`WakeUpRuns.DeletedNext`), which the next store closes into a ring (`EventPool.StrayBreaks`).
  Handlers that post for later than now and delete no due event do no harm (`WakeUpRuns.MildFires`).
* `ll_free` gives memory back if and only if some entry of the table can take it; when it returns
  FALSE the memory is lost (`Partition.FixedPartition.Free`). Entry 0 takes part in no merge.
  `Partition.RefusedReturn` is a run of calls that ends in such a refusal.

## Model

| member | source | states |
|---|---|---|
| Doubles.UnitsMonotone | external/oslib/libm/msun/src/e_fmod.c:52-56 | comparing word pairs lexicographically compares magnitudes |
| Doubles.UnitsInjective | external/oslib/libm/msun/src/e_fmod.c:42-46 | a finite double is determined bit for bit by its sign and its whole number of units, so the contracts of fmod and remainder fix the result words |
| Fmod.LogB | external/oslib/libm/msun/src/e_fmod.c:58-74 | the exponent scan ends; on a subnormal it yields the exponent that brings the leading bit of the mantissa to bit 52 |
| Fmod.Align | external/oslib/libm/msun/src/e_fmod.c:76-100 | the aligned pair times its power of two is the magnitude, with the leading bit in place, for normal and subnormal operands and all three shift shapes |
| Fmod.SubtractPair | external/oslib/libm/msun/src/e_fmod.c:105-105 | two-word subtraction with borrow is subtraction of the 64-bit values |
| Fmod.DoublePair | external/oslib/libm/msun/src/e_fmod.c:106-110 | doubling with carry doubles the 64-bit value |
| Fmod.Reduce | external/oslib/libm/msun/src/e_fmod.c:102-114 | the loop leaves the dividend's mantissa doubled n times, modulo the divisor's mantissa; the early exit is taken only when that is 0 |
| Fmod.Normalise | external/oslib/libm/msun/src/e_fmod.c:119-122 | renormalising ends with the exponent at least -1074 and keeps the value |
| Fmod.Denormalise | external/oslib/libm/msun/src/e_fmod.c:126-138 | in the three subnormal output cases the shifted words are the remainder exactly: only zero bits are shifted out |
| Fmod.Encode | external/oslib/libm/msun/src/e_fmod.c:116-139 | the result encodes the remainder exactly, normal or subnormal, with the sign given; nothing is rounded |
| Mantissa.RemainderScales | external/oslib/libm/msun/src/e_fmod.c:102-114 | the remainder of the aligned mantissas, scaled back, is the remainder of the magnitudes |
| Fmod.Core | external/oslib/libm/msun/src/e_fmod.c:58-140 | for finite operands with the larger magnitude first, the result's magnitude is the integer remainder of the magnitudes |
| Fmod.Fmod | external/oslib/libm/msun/src/e_fmod.c:42-140 | for every finite x and finite nonzero y the result has the sign of x and exactly \|x\| mod \|y\| units; an infinite y gives x; the exceptional exit is taken exactly on a zero or NaN y or a non-finite x |
| Fmodf.UnitsInjective | external/oslib/libm/msun/src/e_fmodf.c:44-48 | a finite float is determined by its sign and its whole number of units of 2^-149 |
| Fmodf.LogB | external/oslib/libm/msun/src/e_fmodf.c:58-66 | the exponent scans of x and of y end and agree with the position of the leading bit, though their loop tests differ |
| Fmodf.Reduce | external/oslib/libm/msun/src/e_fmodf.c:82-94 | the one-word loop leaves the doubled dividend modulo the divisor |
| Fmodf.ShiftDown | external/oslib/libm/msun/src/e_fmodf.c:107-109 | the right shift of a subnormal result discards only zero bits |
| Fmodf.Encode | external/oslib/libm/msun/src/e_fmodf.c:96-112 | the result encodes the remainder exactly with the sign given |
| Fmodf.Fmodf | external/oslib/libm/msun/src/e_fmodf.c:42-113 | for every finite x and finite nonzero y the result has the sign of x and exactly \|x\| mod \|y\| units; the exits are taken exactly where the source takes them |
| Remainder.Sterbenz | external/oslib/libm/msun/src/e_remain.c:67-74 | the difference of two doubles within a factor of two is a double, so the subtractions do not round |
| Remainder.HalvedRepresentable | external/oslib/libm/msun/src/e_remain.c:71-71 | from the branch bound on, 0.5*p is exact |
| Remainder.DoubledRepresentable | external/oslib/libm/msun/src/e_remain.c:61-61 | below the branch bound, p+p is exact |
| Remainder.ReduceBelowTwice | external/oslib/libm/msun/src/e_remain.c:61-61 | afterwards x is reduced modulo 2p and has its sign, also when the call of fmod is skipped for a p of the top binade |
| Remainder.CentreSmall | external/oslib/libm/msun/src/e_remain.c:65-69 | with p small, x ends as its nearest rest modulo p, a tie going to the even quotient |
| Remainder.CentreNormal | external/oslib/libm/msun/src/e_remain.c:70-76 | the same where p is halved instead of x doubled, an infinite p included |
| Remainder.NearestIsClosest | external/oslib/libm/msun/src/e_remain.c:17-25 | the specification means what it says: no multiple of p is closer to x, and quotient and rest are unique |
| Remainder.Remainder | external/oslib/libm/msun/src/e_remain.c:42-80 | for every finite x and finite nonzero p the result is x - n*p for the integer n nearest x/p, ties to even n; a zero result has the sign of x |
| Heap.KernelHeap.InitMemory | source/kernel/core/memory.c:386-392 | the heap becomes one free block of the initial size |
| Heap.KernelHeap.Malloc | source/kernel/core/memory.c:317-345 | the first fitting block is split exactly when the rest is worth a block and marked used; NULL and no change when none fits; the list stays laid end to end with no two free neighbours |
| Heap.KernelHeap.MergeSurroundingFreeBlocks | source/kernel/core/memory.c:24-49 | the block joins a free predecessor and all free successors; no change for an address that is no block |
| Heap.KernelHeap.AbsorbFollowing | source/kernel/core/memory.c:44-48 | every free block that follows is absorbed, and the stored links and sizes say so |
| Heap.KernelHeap.Free | source/kernel/core/memory.c:356-365 | the block of the pointer is released and merged; NULL changes nothing; the list invariant is kept |
| Heap.SpliceAddr | source/kernel/core/memory.c:328-335 | replacing blocks by others of the same extent moves no other block |
| Heap.AllocateWf | source/kernel/core/memory.c:325-339 | an allocation keeps the blocks laid end to end over the whole heap with no two neighbouring free ones |
| Heap.ReleaseWf | source/kernel/core/memory.c:24-49 | so does a release, which restores the latter by merging on both sides |
| Heap.NoSplinters | source/kernel/core/memory.c:325-339 | malloc makes no free block of 16 bytes or less: it splits off the rest exactly when that is worth a block, and otherwise hands out at most 28 bytes more than asked for |
| HeapRuns.LiveDisjoint | source/kernel/core/memory.c:317-365 | live payloads lie inside the heap and, with their headers, do not overlap |
| HeapRuns.AllocateLive | source/kernel/core/memory.c:325-339 | malloc adds exactly one live payload, at least as large as asked for, and moves or resizes no other |
| HeapRuns.ReleaseLive | source/kernel/core/memory.c:356-365 | free removes exactly the payload of its pointer |
| HeapRuns.MallocComplete | source/kernel/core/memory.c:325-344 | malloc succeeds if and only if some stretch of the heap clear of live blocks has room for header and payload, and it takes the lowest such stretch |
| HeapRuns.NothingLive | source/kernel/core/memory.c:356-365 | with nothing live the heap is again one free block of the initial size |
| HeapRuns.StepHonest | source/kernel/core/memory.c:317-365 | every call keeps what the client holds equal to what is live |
| HeapRuns.HeldIsLive | source/kernel/core/memory.c:356-365 | any held pointer can be freed: the precondition of free is met |
| HeapRuns.RunSafe | source/kernel/core/memory.c:317-365 | over every run of malloc and free on held pointers: held ranges in bounds and disjoint, blocks tiling the heap with no two free neighbours, and full recovery once everything is given back |
| BulkCopy.IsCopyDetermines | source/kernel/core/memory.c:95-157 | the pointwise description of a copy holds of exactly one memory |
| BulkCopy.JoinUp | source/kernel/core/memory.c:109-132 | two upward copies meeting end to end are one copy, though the first may have overwritten part of the source |
| BulkCopy.JoinDown | source/kernel/core/memory.c:133-154 | the same for downward copies |
| BulkCopy.CopyForward | source/kernel/core/memory.c:109-132 | alignment bytes, words and trailing bytes together copy the original range, with every word access aligned |
| BulkCopy.CopyBackward | source/kernel/core/memory.c:133-154 | the same from the upper end |
| BulkCopy.Memcpy | source/kernel/core/memory.c:95-157 | for any two ranges, overlapping or not, every length and alignment: the destination gets the source's original bytes and nothing else changes |
| BulkCopy.Memset | source/kernel/core/memory.c:53-91 | exactly the n bytes get the low byte of the value, whatever the alignment and however head and tail overlap |
| Uri.ScanIs | source/kernel/libs/string.c:90-112 | the scan's result is characterised: the first position that holds a stop character |
| Uri.TailRoundTrip | source/kernel/utils/httpClient/uriparser.c:87-122 | path, query and fragment printed after any text parse back |
| Uri.HostRoundTrip | source/kernel/utils/httpClient/uriparser.c:58-78 | a printed host with or without port is delimited and parsed back |
| Uri.AuthorityRoundTrip | source/kernel/utils/httpClient/uriparser.c:39-85 | the printed authority parses back, at the right position, when '@' signs do no harm |
| Uri.SchemeChars | source/kernel/utils/httpClient/uriparser.c:15-17 | the scheme characters are those of RFC 3986, by their codes |
| Uri.RoundTrip | source/kernel/utils/httpClient/uriparser.c:124-147 | parsing the printed text of a record gives back every field that fits its array and leaves the others blank, when '@' signs do no harm and something ends the host |
| Uri.HarmDone | source/kernel/utils/httpClient/uriparser.c:46-56 | with a harmful '@' parsing never gives the record back |
| Uri.AtSignLost | source/kernel/utils/httpClient/uriparser.c:46-56 | a record with the user a@b does not come back |
| Uri.OpenHostLost | source/kernel/utils/httpClient/uriparser.c:58-82 | where nothing ends the host, anything more than a scheme and a host does not come back |
| Uri.QueryInHost | source/kernel/utils/httpClient/uriparser.c:58-82 | the query of http://h?q does not come back |
| Uri.RoundTripIff | source/kernel/utils/httpClient/uriparser.c:124-237 | for every well-formed record, with or without path and port, printing then parsing is the identity if and only if no '@' is misread and the end of the host is found |
| UriReferences.ReferenceRoundTrip | source/kernel/utils/httpClient/uriparser.c:135-144 | a path, query and fragment printed alone parse back, when the path does not look like a scheme |
| UriReferences.ReferenceRoundTripIff | source/kernel/utils/httpClient/uriparser.c:135-144 | and only then, for every such record |
| UriReferences.PathTaken | source/kernel/utils/httpClient/uriparser.c:135-144 | the path a:b does not come back |
| UriReferences.HostInPath | source/kernel/utils/httpClient/uriparser.c:199-237 | an authority printed without a scheme comes back as the start of the path |
| UriReferences.SchemeAlone | source/kernel/utils/httpClient/uriparser.c:135-141 | a scheme printed without a host makes a text that is refused, unless two slashes follow |
| UriReferences.RejectedIff | source/kernel/utils/httpClient/uriparser.c:135-141 | a text is refused if and only if it starts with a scheme and a colon and no two slashes follow |
| UriReferences.OverrunIff | source/kernel/utils/httpClient/uriparser.c:79-82 | the copy of the host runs past its array if and only if nothing after the first '@' ends the host and 256 characters or more are left |
| UriCode.Strchr | source/kernel/libs/string.c:90-98 | the pointer to the first occurrence, null when there is none |
| UriCode.Strpbrk | source/kernel/libs/string.c:100-112 | the same for a set of characters |
| UriCode.Parser.ParseScheme | source/kernel/utils/httpClient/uriparser.c:19-37 | the scheme is taken exactly when a colon follows its characters and it fits; otherwise the cursor is put back |
| UriCode.Parser.ParseAuthority | source/kernel/utils/httpClient/uriparser.c:39-85 | fields and cursor are those of the specification, the null host end included; a host without end that does not fit is reported as running past its array |
| UriCode.Parser.ParsePath | source/kernel/utils/httpClient/uriparser.c:87-97 | cursor and path as specified; a path that does not fit is left blank |
| UriCode.Parser.ParseQuery | source/kernel/utils/httpClient/uriparser.c:99-112 | cursor and query as specified, and no move without a question mark |
| UriCode.Parser.ParseFragment | source/kernel/utils/httpClient/uriparser.c:114-122 | the fragment as specified |
| UriCode.Parser.UriParse | source/kernel/utils/httpClient/uriparser.c:124-147 | the record left in the object and the answer are those of Uri.Parse, for every text |
| UriCode.ExpandParts | source/kernel/core/stdio.c:562-595 | text without a % stands for itself |
| UriCode.ExpandConversion | source/kernel/core/stdio.c:566-594 | %s stands for the argument, and a % before any other character but d for that character |
| UriCode.ClipJoin | source/kernel/core/stdio.c:562-595 | clipping piece by piece clips the whole |
| UriCode.Snprintf | source/kernel/core/stdio.c:548-603 | the buffer gets the expansion cut to size - 1 characters and a terminator and is otherwise unchanged; the result is the cut length |
| UriCode.UriToString | source/kernel/utils/httpClient/uriparser.c:199-237 | the buffer gets the text cut to size - 1 characters, whole exactly when it fits, and a terminator; the answer is 1 whenever the size is not 0 |
| UriCode.CutAndAccepted | source/kernel/utils/httpClient/uriparser.c:199-237 | a call that cuts the text and answers 1 |
| Fat.NextClusterInvertsPack | source/boot/stage2/fat.c:187-195 | reading entry c of a table packed two 12-bit entries to three bytes gives that entry |
| Fat.PackedPair | source/boot/stage2/fat.c:187-195 | two entries packed by hand |
| Fat.PackedChain | source/boot/stage2/fat.c:187-195 | a chain told by the entries of the table is the chain its packed bytes are read as |
| Fat.BlockOf | source/boot/stage2/fat.c:142-145 | block k of the data area is sector k mod n of cluster 2 + k div n, for n sectors a cluster, and of no other |
| Fat.BytesAreClusters | source/boot/stage2/fat.c:142-145 | the bytes of a file are the clusters of its chain laid end to end, as they lie on the disk |
| Fat.OpenEntry | source/boot/stage2/fat.c:147-185 | the first unused handle is set up at position 0 with the file's first sector in its buffer; null exactly when every handle is in use; other handles are unchanged |
| Fat.FileData.NextSector | source/boot/stage2/fat.c:222-259 | crossing a sector boundary loads the next sector of the chain, or sets the size to the position at its end |
| Fat.FileData.ReadLoop | source/boot/stage2/fat.c:210-262 | the loop delivers the wanted bytes, or fewer only at the end of the chain |
| Fat.FileData.Read | source/boot/stage2/fat.c:197-263 | a read delivers the next bytes of the file, cut at its end, touches nothing behind them, and keeps the buffer holding the sector of the position |
| Fat.ReadsSplitAnyWay | source/boot/stage2/fat.c:197-263 | what successive reads of a file's bytes deliver adjoins: joined, it is one stretch from the first position on, cut at the end, however the byte counts are split |
| Fat.ReadInTurn | source/boot/stage2/fat.c:197-263 | calling the reader on an open file once for each of any list of counts delivers, joined, the bytes of the file from the old position to the new one, which lies behind by the sum of the counts or at the end |
| Fat.ReadFromStart | source/boot/stage2/fat.c:147-263 | on a disk that holds given clusters one after the other, opening an entry and reading in any pieces delivers, joined, the clusters of its chain, cut at the size or the end of the chain |
| Line.HalfPixel | source/kernel/libs/ui/graphics_context.c:29-35 | the plotted minor coordinate is within half a pixel of the true line |
| Line.HalfPixelUnique | source/kernel/libs/ui/graphics_context.c:29-35 | and it is the only such integer, a tie going down |
| Line.Advance | source/kernel/libs/ui/graphics_context.c:32-34 | one turn keeps the relation of the error term to the exact position, and its test decides the minor step rightly |
| Line.LineAccurate | source/kernel/libs/ui/graphics_context.c:22-36 | every point is within half a pixel along the minor axis, the major axis moves one pixel a point, and the ends are the given ones |
| Line.LineConnected | source/kernel/libs/ui/graphics_context.c:32-34 | neighbouring points touch |
| Line.GraphicsContext.OwnerRange | source/kernel/libs/ui/graphics_context.c:6-6 | the bytes of a visible pixel are the ones from its offset on, inside the buffer and shared with no other pixel |
| Line.GraphicsContext.PutPixel | source/kernel/libs/ui/graphics_context.c:3-20 | exactly the bytes of a visible pixel change, little-endian; an invisible pixel or another pixel size changes nothing |
| Line.ColorBytes | source/kernel/libs/ui/graphics_context.c:8-16 | the bytes stored are the digits of the colour to base 256 |
| Line.GraphicsContext.PaintedReads | source/kernel/libs/ui/graphics_context.c:3-20 | a painted pixel reads back as the colour cut to one, two or four bytes, every other pixel as before |
| Line.ShortLinesFit | source/kernel/libs/ui/graphics_context.c:22-36 | within spans of 715827882 no 32-bit int of any turn overflows |
| Line.HorizontalFitsIff | source/kernel/libs/ui/graphics_context.c:22-36 | a horizontal line is free of overflow if and only if its span is below 2^30 |
| Line.DrawLine | source/kernel/libs/ui/graphics_context.c:22-36 | for every line none of whose turns overflows an int, the loop ends after max(dx,dy)+1 points, which are those of the line in order, and exactly their visible pixels are painted |
| Ticks.SplitAdd | external/oslib/ll/i386/pit.h:178-180 | ADDPITSPEC adds ticks to the split count without losing any |
| Ticks.UsecExact | external/oslib/ll/i386/pit.h:182-183 | in 32-bit arithmetic PITSPEC2USEC is the floor of 1000*ticks/1197, modulo 2^32, for every count |
| Ticks.UsecTrueIffFits | external/oslib/ll/i386/pit.h:182-183 | it is the true time if and only if that fits in 32 bits |
| Ticks.UsecMonotone | external/oslib/kl/time.c:63-73 | within that range the reported time never goes back |
| Ticks.UsecWraps | external/oslib/ll/i386/pit.h:182-183 | a count of 4296 seconds, reported as 1065704 microseconds |
| Ticks.TimeSpecRightIffFits | external/oslib/ll/sys/ll/time.h:130-136 | the structure filled in denotes the true microseconds if and only if the milliseconds of whole periods fit in a long, and then its nanoseconds are below a second; they are whole microseconds |
| Ticks.ShownCountsDown | external/oslib/kl/event.c:180-182 | the counter the difference is taken of goes down by one each tick, and round from 0 |
| Ticks.Counter.WakeUp | external/oslib/kl/event.c:180-182 | the wrapping difference of the 16-bit counter adds the ticks elapsed modulo 65536 |
| Ticks.Counter.GetTimeNew | external/oslib/kl/time.c:63-73 | the same accounting; the time returned is that of the count modulo 2^32, and the structure, when wanted, is right exactly as long as its milliseconds fit |
| Ticks.CountedIffPrompt | external/oslib/kl/event.c:180-182 | over any interleaving of readings the count is the elapsed time if and only if fewer than 65536 ticks pass between readings |
| Ticks.LateReading | external/oslib/kl/event.c:180-182 | a first reading after 65536 ticks counts nothing |
| Ticks.ReadAt | external/oslib/kl/time.c:63-73 | any readings of the counter object, by either reader, leave it with that count |
| Events.AddNanoAdds | external/oslib/ll/sys/ll/time.h:70-72 | ADDNANO2TIMESPEC adds nanoseconds and keeps them below a second |
| Events.LaterIs | external/oslib/ll/sys/ll/time.h:102-106 | TIMESPEC_A_GT_B is the order of the nanoseconds |
| Events.PostWf | external/oslib/kl/event.c:80-123 | a post keeps each pool entry on exactly one list, and the pending list sorted by time and acyclic even when entries have been lost |
| Events.DeleteWf | external/oslib/kl/event.c:125-148 | so does a delete |
| Events.NoSharing | external/oslib/kl/event.c:294-302 | neither list repeats an entry and they share none |
| Events.PostFailsIffFull | external/oslib/kl/event.c:86-88 | the free list is empty if and only if all entries are pending |
| Events.DeleteExact | external/oslib/kl/event.c:125-148 | delete removes the named event and no other |
| WakeUps.WakeFromSound | external/oslib/kl/event.c:191-207 | whatever the handlers post and delete, unless the loop goes astray it leaves both lists acyclic, disjoint and sorted, and no entry that was on neither comes back |
| WakeUps.TakeMembers | external/oslib/kl/event.c:202-205 | a turn drops exactly the entries in front of the one fired |
| WakeUps.WakeUpWf | external/oslib/kl/event.c:191-207 | for every queue and all handlers: the wake-up keeps each pool entry on exactly one list if and only if each due event it goes on to is the first pending one |
| WakeUpRuns.PostsFind | external/oslib/kl/event.c:80-123 | under posts a pending event stays as it is, and the first one stays first if and only if every successful request is later |
| WakeUpRuns.PostsWakeUpWf | external/oslib/kl/event.c:191-207 | for handlers that only post, the wake-up always ends with sound lists, and loses no entry if and only if no handler posts with success, while another due event is next, a request not later than it |
| WakeUpRuns.RequestsServed | external/oslib/kl/event.c:86-92 | of the requests a handler makes, each of the first ones, as many as there are free entries, ends up pending in the entry next on the free list |
| WakeUpRuns.FirstRepostSucceeds | external/oslib/kl/event.c:202-206 | so the first request a handler makes is always served, by the entry just released |
| WakeUpRuns.MildFires | external/oslib/kl/event.c:191-207 | handlers that post only for later than now and delete no due event: the wake-up fires exactly the leading due events in order, leaves none due and loses no entry |
| WakeUpRuns.LaterPostsAreMild | external/oslib/kl/event.c:191-207 | handlers that only post for later than now are of that kind |
| WakeUpRuns.WakeUpKeeps | external/oslib/kl/event.c:191-207 | an event later than now that no handler deletes is still pending after a wake-up that loses no entry |
| WakeUpRuns.WakeUpExact | external/oslib/kl/event.c:191-207 | for handlers as in MildFires: each event due fires once, in queue order, no other does, and only later events stay, all those included that were pending and not deleted |
| WakeUpRuns.LostPost | external/oslib/kl/event.c:202-206 | two events due at one time and a handler that posts a third for that time: the third is dropped and its entry is on neither list |
| WakeUpRuns.DeletedNext | external/oslib/kl/event.c:202-206 | a handler that deletes the next due event: the loop goes on with a free entry |
| WakeUpRuns.RunWf | external/oslib/kl/event.c:80-213 | over every run of posts, deletes and wake-ups with any handlers, each pool entry is on exactly one list and the pending list is sorted if and only if every wake-up went on to the first pending event only |
| Periods.ClockCounts | external/oslib/kl/event.c:189-189 | k wake-ups move the clock on by k periods |
| Periods.CalledOnTime | external/oslib/kl/event.c:189-207 | over any wake-ups with handlers as in MildFires, and any posts and deletes between them, an event that nobody deletes is called by the first wake-up whose time is not before its own, and by none if there is no such wake-up |
| Periods.RunFresh | external/oslib/kl/event.c:294-317 | from the start on, after any posts, deletes and wake-ups that do not go astray, the queue object represents the queue they lead to and shows a time of one period for each wake-up |
| EventPool.EventQueue.constructor | external/oslib/kl/event.c:294-302 | the linked pool starts as the free list of all entries in order |
| EventPool.EventQueue.FindPlace | external/oslib/kl/event.c:101-112 | the walk stops at the first event that is not earlier, with its predecessor |
| EventPool.EventQueue.Post | external/oslib/kl/event.c:80-123 | the pointer updates represent the post on sequences; -1 and no change when no entry is free |
| EventPool.EventQueue.Delete | external/oslib/kl/event.c:125-148 | the pointer updates represent the delete on sequences; -1 and no change when the event is not pending |
| EventPool.EventQueue.Release | external/oslib/kl/event.c:202-205 | the four stores of a turn free the entry at any position and start the pending list behind it, and the link saved is that list's start |
| EventPool.EventQueue.Fire | external/oslib/kl/event.c:202-206 | with the handler's calls, in order, that is one turn on sequences, and the time field behind the saved link is as specified |
| EventPool.EventQueue.WakeUp | external/oslib/kl/event.c:189-207 | unless it goes astray the loop, which follows the saved links, calls the handlers of the events fired in order and leaves the pool representing the wake-up's result, entries lost included |
| EventPool.TakeRepresents | external/oslib/kl/event.c:202-205 | those stores keep both chains as specified |
| EventPool.StrayBreaks | external/oslib/kl/event.c:202-205 | made for an entry of the free list they leave a pool that represents no queue at all |
| EventPool.PostRepresents | external/oslib/kl/event.c:90-120 | filling in and linking one entry keeps both chains acyclic and as specified |
| EventPool.DeleteRepresents | external/oslib/kl/event.c:139-145 | unlinking one entry does as well |
| Partition.FixedPartition.constructor | external/oslib/kl/mem.c:47-54 | the whole region is free and accounted for |
| Partition.FixedPartition.Search | external/oslib/kl/mem.c:58-65 | the search finds the first entry that is large enough |
| Partition.FixedPartition.Alloc | external/oslib/kl/mem.c:56-74 | the first fitting extent gives up its front and only that; NULL exactly when no single extent fits; free and live memory stay disjoint, in the region, and of constant total, and no two entries but the 0th meet |
| Partition.FixedPartition.FindNeighbours | external/oslib/kl/mem.c:78-87 | a neighbour on either side is found when an entry but the 0th is one |
| Partition.FixedPartition.Free | external/oslib/kl/mem.c:76-106 | exactly the returned memory becomes free; one entry then holds it with the neighbours it has on either side, the 0th entry not counting, or the first unused entry does, so that no two entries but the 0th meet; refused if and only if no entry can take it, and then its size is what the sum lacks |
| Partition.GivenBackCount | external/oslib/kl/mem.c:88-104 | between two neighbours a return leaves one entry less in use, beside one as many, beside none one more |
| Partition.CutCoalesced | external/oslib/kl/mem.c:67-72 | an allocation makes no two entries meet |
| Partition.RefusedReturn | external/oslib/kl/mem.c:56-106 | a hundred bytes handed out one by one and every other one given back: the fiftieth finds the table full and no neighbour, and is refused and lost |
| Partition.JoinBoth | external/oslib/kl/mem.c:88-91 | joining two extents across the returned piece adds exactly that piece |
| Partition.GrowOne | external/oslib/kl/mem.c:92-104 | so does growing one extent or taking up an unused entry |
| NumberText.DigitNames | external/oslib/libc/string/strbase.c:100-113 | the digits are those of isnumber's table, capital letters included |
| NumberText.PaddedToWidth | external/oslib/libc/ioformat/ucvt.c:72-105 | the text is as wide as asked for when padding applies, and never narrower than sign and digits |
| NumberText.SpacesAround | external/oslib/libc/ioformat/ucvt.c:72-105 | spaces go behind the number when the caller sets LEFT_PAD, and in front of it otherwise |
| NumberText.ZerosBetween | external/oslib/libc/ioformat/ucvt.c:84-92 | zeros go between sign and digits |
| NumberText.TmpNeverOverflows | external/oslib/libc/ioformat/ucvt.c:37-70 | the 12-byte temporary holds the digits of every 32-bit number if and only if the base is at least 7 |
| NumberText.DigitsLength | external/oslib/libc/ioformat/ucvt.c:67-70 | a number has at most k digits if and only if it is below base to the k |
| NumberText.ValueOfDigits | external/oslib/libc/stdlib/strtou.c:40-48 | the positional value of a number's digits is the number |
| NumberText.AccExact | external/oslib/libc/stdlib/strtou.c:43-47 | as long as the value fits, the wrapping accumulator equals it and no overflow is flagged, signed or unsigned |
| NumberText.AccWraps | external/oslib/libc/stdlib/strtou.c:40-48 | for every run of digits the accumulator is the value wrapped, and the flag is raised if and only if some digit makes the wrapped value smaller |
| NumberText.FlagExactIff | external/oslib/libc/stdlib/strtou.c:43-50 | the flag tells whether the value is out of range if and only if the value fits or some digit makes the wrapped value smaller |
| NumberText.MissedOverflow | external/oslib/libc/stdlib/strtou.c:43-50 | ten nines are read as 1410065407 and not flagged |
| NumberText.ConvertedMin | external/oslib/libc/stdlib/strtoi.c:45-55 | on the digits of 2^31 the signed loop flags the overflow at the last digit |
| NumberText.DigitLoop | external/oslib/libc/ioformat/ucvt.c:67-70 | the temporary gets the digits, least significant first, and is not overrun |
| NumberText.Ucvt | external/oslib/libc/ioformat/ucvt.c:32-109 | sign, padding and digits in the right order and number, a terminator, nothing else written; the result is the written length |
| NumberText.Dcvt | external/oslib/libc/ioformat/ucvt.c:111-114 | the same for a signed number |
| NumberText.Strtou | external/oslib/libc/stdlib/strtou.c:29-52 | the loops compute the specified value and end position, the early return of 0 included |
| NumberText.Strtoi | external/oslib/libc/stdlib/strtoi.c:29-58 | the same with a sign |
| NumberReading.StrtouReads | external/oslib/libc/stdlib/strtou.c:29-52 | after zeros, and in base 16 an x among them, the digits of any number that fits are read to their end and give that number; 0 if one of six characters follows in a base above ten |
| NumberReading.StrtoiReads | external/oslib/libc/stdlib/strtoi.c:29-58 | the same after a sign and zeros, negated exactly after a minus |
| NumberReading.ColonReadsZero | external/oslib/libc/stdlib/strtou.c:40-42 | 5: in base 16 is read as 0 |
| NumberText.UnsignedRoundTrip | external/oslib/libc/ioformat/ucvt.c:32-109 | strtou reads back what ucvt printed if and only if the number is 0 or neither a plus sign nor leading spaces were printed |
| NumberText.SignedRoundTrip | external/oslib/libc/ioformat/ucvt.c:111-114 | strtoi reads back what dcvt printed if and only if the number is 0, or is not -2^31 and no leading spaces were printed |
| NumberText.NotReadBack | external/oslib/libc/ioformat/ucvt.c:72-109 | a 5 printed three wide, a 5 printed with its plus sign, and -2^31 are not read back |
| Strtol.CutoffExact | external/oslib/libc/stdlib/strtol.c:97-112 | the test on cutoff and cutlim is the test for leaving the range |
| Strtol.Accumulate | external/oslib/libc/stdlib/strtol.c:97-119 | the loop ends at the end of the run with its value, or with the overflow mark exactly when the value is out of range; the accumulator never wraps |
| Strtol.Strtol | external/oslib/libc/stdlib/strtol.c:50-128 | the result is the value of the run clamped to the range of long, ERANGE exactly when it was clamped, and endptr the end of the run, or the start when it is empty |
| StrtolStandard.EveryText | external/oslib/libc/stdlib/strtol.c:50-128 | every text is white space, a sign, a 0x, digits and a rest, each as long as the C standard has it |
| StrtolStandard.PrefixFound | external/oslib/libc/stdlib/strtol.c:63-84 | the code finds the standard's sign and base, 16 after a 0x, 8 after another 0 and 10 otherwise if the base is 0, but takes a bare 0x for a mark |
| StrtolStandard.RunsCompare | external/oslib/libc/string/strbase.c:25-71 | the code reads over the standard's digits, and on exactly when the next character counts as a digit for it |
| StrtolStandard.NumberFound | external/oslib/libc/stdlib/strtol.c:97-119 | the number read is the positional value of the standard's digits, or larger if a stray character follows |
| StrtolStandard.EndIsStandard | external/oslib/libc/stdlib/strtol.c:63-127 | endptr is the standard's if and only if no stray follows and a 0x prefix has a digit |
| StrtolStandard.ValueIsStandard | external/oslib/libc/stdlib/strtol.c:63-127 | the value returned is the standard's, negated exactly after a minus and clamped to the range of long, if and only if no stray follows or the number is at the end of the range already; without a stray ERANGE is, too |
| StrtolStandard.StrayAndBarePrefix | external/oslib/libc/stdlib/strtol.c:63-127 | 1_ in base 10 and 0x in base 16 end, and the former has a value, other than in the standard |
| Random.Schrage | external/oslib/libc/stdlib/random.c:33-36 | for every 32-bit state both products and their difference stay in range, and the result is the product modulo 2^31-1 |
| Random.Generator.Rand | external/oslib/libc/stdlib/random.c:31-38 | one call is one step of the generator, with no signed overflow on the way |
| Random.PowerLaw | external/oslib/libc/stdlib/random.c:31-43 | after n calls the state is 16807 to the n times the seed, modulo 2^31-1, for every seed |
| Random.Permutation | external/oslib/libc/stdlib/random.c:33-36 | one step is a permutation of the residues, undone by the inverse factor, and of those other than 0 |
| Random.Reversible | external/oslib/libc/stdlib/random.c:31-38 | runs of equal length from different states end in different states |
| Random.ZeroOnlyFromZero | external/oslib/libc/stdlib/random.c:31-43 | 0 comes up if and only if the seed is a multiple of 2^31-1 |
| RandomPeriod.OrderDivides | external/oslib/libc/stdlib/random.c:25-38 | a run that changes no state has a multiple of 2^31-2 calls, from a certificate over the primes of 2^31-2 |
| RandomPeriod.FullPeriod | external/oslib/libc/stdlib/random.c:31-38 | from any seed in 1 to 2^31-2 every value in that range comes up within 2^31-2 calls |
| RandomPeriod.PeriodExact | external/oslib/libc/stdlib/random.c:31-38 | a state comes back exactly after the multiples of 2^31-2 calls |

## Left out

- Fmod.Fmod: the float result of the exceptional exits (a zero or NaN divisor, a non-finite dividend) is not modelled, only when they are taken.
- Fmodf.Fmodf: as for Fmod.Fmod.
- Remainder.Remainder: the same exits are not modelled beyond their condition.
- EventPool.EventQueue.WakeUp: requires that the loop does not go on with a deleted entry; what it then does in the free list is not modelled beyond its first store. What handlers do is a list of posts and deletes for each handler call, not code.
- EventPool.EventQueue.constructor: the 32-bit overflow of a tick of more than a second, and of the seconds after 68 years, is not modelled.
- NumberText.Ucvt: requires the digits to fit the temporary, which every 32-bit number does from base 7 on.
- StrtolStandard.EndIsStandard: only for the bases the standard defines, 0 and 2 to 36; so is StrtolStandard.ValueIsStandard. `Strtol.Strtol` itself covers every base.
- Line.DrawLine: requires that no turn overflows a 32-bit int; what an overflowing line draws is not modelled.
- Fat.OpenEntry: requires an entry with a cluster chain; for an empty file that has none the source reads the sector at a wrapped-around address, and a read that fails is not modelled.
- Fat.FileData.Read: a read that fails, a cluster chain that is not well formed and a 32-bit overflow of the position are not covered.
- Heap.KernelHeap.Free: requires NULL or a live pointer; freeing any other pointer is not covered.
- Heap.KernelHeap.Malloc: payload contents are not part of the heap model, and headers are written as records, not bytes.
- UriCode.Parser.ParseAuthority: what happens after a copy past the end of the host array is not modelled.
- UriCode.Snprintf: the %d conversion is not modelled, which the printer does not use; nor is a format that ends in a lone %, past whose end the source reads.
- `source/kernel/drivers/display.c`: its line loop is the one of the graphics context; rectangle fills only nest pixel writes.
- `calloc`, `memmove` and the assembly copies of `memory.c`: `calloc` multiplies without an overflow check, the rest is inline assembly.
- The one-shot timer path, interrupt binding, prologue and epilogue hooks of `event.c`: hardware effects.
- `FAT_Open`, `FAT_FindFile`, `FAT_Close` and the reading of the boot sector: path handling and hardware set-up.
- Port I/O, drivers, windows and widgets, the command line, the other `libm` functions: no exact result to state, or only easy ones.
