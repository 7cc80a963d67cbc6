# Verified models of a dynamic binary translator's support code

This project models the self-contained parts of a QEMU-derived i386 dynamic binary translator and proves
properties of the models.  `dafny verify dfyconfig.toml` checks everything.

| part | modules |
|---|---|
| multi-word arithmetic of the software floating point and the host helpers | `Words`, `MultiWord`, `EstimateDiv`, `EstimateSqrt`, `LeadingZeros`, `JamShifts`, `HostUtils` |
| system call thunks: type descriptions, structure layouts, conversion between two binary interfaces | `ThunkTypes`, `ThunkRegistry`, `ThunkLayouts`, `ByteOrder`, `ThunkScalars`, `ThunkConvert` |
| start-up of a guest program: strings and pointer tables on its stack | `ArgStrings`, `ArgTables`, `ElfTables` |
| guest page table, region walk, access to guest memory | `PageTable`, `RegionWalk`, `GuestAccess` |
| lookup of translation blocks | `TbLookup` |
| timers, clocks and intrusive queues | `Timers`, `GuestClock`, `TailQueue`, `CircleQueue` |
| the remote debugging protocol and calendar arithmetic | `GdbFraming`, `Calendar` |
| shared notions | `Common` |

Code that updates state is a class or a method over arrays, as in the original; what it computes is stated by
functions, and what is promised about it is proved about those functions.

## Conventions

- Machine words are natural numbers below a base, and wrap-around is written out.  Numbers of several words are
  read through `Val2`, `Val3`, `Val4` or `Cat`.  Shifts and bitwise "or" are recursive functions on naturals.
- Ghost parameters (positions in a list, the tree behind a flat description, the flat map behind the page table)
  only serve the contracts.
- What comes from outside is a parameter: the raw counter and the host time of a clock, the bytes arriving at the
  protocol parser, the scripts of timer callbacks, what a translation does with blocks, the guest base, the address and
  the page flags of the guest stack.  Every theorem is for all of them.

## Where the code departs from its intent

The models keep the code as it is; each departure has an exact condition.

- `shift128Right` returns zero for counts from 64 to 127 (`JamShifts.Shift128Right`, `JamShifts.LosesUpperWord`).
- `mktimegm` multiplies ints (`Calendar.MkTimeGm`).  On a 32-bit host, where `time_t` is an `int` too, a time is right
  if and only if its seconds fit (`Calendar.NarrowFails`); with a wider `time_t` the last right day is 24855 days from
  the epoch (`Calendar.WideFails`, `Calendar.WideFailsEarly`).  A wrong time is right modulo 2^32
  (`Calendar.RightModulo`).  Signed overflow, which C leaves open, is modelled as wrap-around.
- `page_set_flags` and `page_check_range` do nothing for a range from the first page into the last one
  (`PageTable.PageMap.SetFlags`, `PageTable.SetsNothing`, `PageTable.PageMap.CheckRange`, `PageTable.PassesUnmapped`).
- `page_check_range` looks at one page only when write access is asked for, which is right for all tables if and only if
  the range lies within a page (`PageTable.CheckOnePage`, `PageTable.WrongWriteCheck`, `GuestAccess.Guest.CopyToUser`).
- `lock_user` returns a host address, and its callers take null for a failure.  In the configured build there is no
  guest base, so address 0 can never be read or written this way (`GuestAccess.NothingAtZero`); it cannot happen if and
  only if there is a base that keeps guest memory away from null (`GuestAccess.NeverNull`).
- `walk_memory_regions` computes its top-level bases without the page bits (`RegionWalk.WalkRegions`,
  `RegionWalk.WrongAddresses`); with true bases the walk is right (`RegionWalk.WalkTrue`).
- The packet parser forgets that it is inside an overlong packet, so that a start mark in the rest of its payload
  begins another packet (`GdbFraming.AnyReception`, `GdbFraming.OverlongEndHandled`).
- `create_elf_tables` pushes one entry more than it reckons with, so that the stack is never aligned to 16 bytes
  (`ElfTables.NeverAligned`).
- `make_tb` ignores the requested tag, so only one tag is ever found (`TbLookup.OnlyNormalTag`).
- `cpu_get_ticks` can go back if the raw counter falls between a start and the first read after it
  (`GuestClock.TicksNeverDecrease`, `GuestClock.FirstReadFalls`, `GuestClock.TicksExactly`).
- A conversion through a host with a smaller long loses what does not fit (`ThunkConvert.RoundTrip`,
  `ThunkConvert.NarrowHostLoses`).

## Model

| member | source | states |
|---|---|---|
| EstimateSqrt.EstimateSqrt32 | fpu/softfloat-macros.h:568-605 | For every a >= 2^31 and both parities of the exponent the estimate lies strictly within 2 of the exact square root of the radicand |
| EstimateSqrt.NearRootOfSquare | fpu/softfloat-macros.h:568-605 | What near the root means: for a square, within 2 of its root |
| EstimateSqrt.OddSegment | fpu/softfloat-macros.h:592-594 | For all 16 segments of the table for odd exponents, twice the square of the first guess is within 28,000,000 of a, whatever the bits of a below the segment are |
| EstimateSqrt.EvenSegment | fpu/softfloat-macros.h:597-599 | For all 16 segments of the table for even exponents, the square of the first guess is within 20,000,000 of a |
| EstimateSqrt.EarlyReturn | fpu/softfloat-macros.h:599-601 | The early return for even exponents, taken when the first estimate does not exceed a, is still within 2 of the root |
| EstimateSqrt.MeanNearRoot | fpu/softfloat-macros.h:600-601 | The value of the early return: for an a within 2^17 of 2^32, the mean of a and 2^32 is within 2 of the root of their product |
| EstimateSqrt.NewtonFromAbove | fpu/softfloat-macros.h:603 | What exceeds the mean of z and n / z is above the root of n |
| EstimateSqrt.NewtonFromBelow | fpu/softfloat-macros.h:603 | What does not exceed the mean of z and n / z is, less 2, below the root of n, if the square of z is close enough to n |
| EstimateDiv.EstimateDiv128To64 | fpu/softfloat-macros.h:546-566 | For a normalised divisor and a0 < b the estimate z satisfies q <= z <= q + 2 for the exact quotient q |
| EstimateDiv.CorrectHighDigit | fpu/softfloat-macros.h:555-562 | The correction loop runs at most twice and leaves the exact high 32-bit digit with its remainder |
| EstimateDiv.GuessBounds | fpu/softfloat-macros.h:552-554 | A quotient by the upper half of a normalised divisor is not below the true digit and exceeds it by at most 2 |
| EstimateDiv.QuotientSplit | fpu/softfloat-macros.h:563-565 | The 64-bit quotient is the high digit followed by the quotient of the remainder |
| MultiWord.Add128 | fpu/softfloat-macros.h:329-347 | Addition of two-word numbers, modulo 2^128 |
| MultiWord.Add192 | fpu/softfloat-macros.h:349-385 | Addition of three-word numbers is exact modulo 2^192: no carry is lost |
| MultiWord.Sub128 | fpu/softfloat-macros.h:387-403 | Subtraction of two-word numbers, modulo 2^128 |
| MultiWord.Sub192 | fpu/softfloat-macros.h:405-441 | Subtraction of three-word numbers is exact modulo 2^192 |
| MultiWord.Mul64To128 | fpu/softfloat-macros.h:443-470 | The two result words are the exact product of two 64-bit words |
| MultiWord.Mul128By64To192 | fpu/softfloat-macros.h:472-498 | The three result words are the exact product of a 128-bit and a 64-bit number |
| MultiWord.Mul128To256 | fpu/softfloat-macros.h:500-535 | The four result words are the exact product of two 128-bit numbers |
| LeadingZeros.CountLeadingZeros32 | fpu/softfloat-macros.h:607-645 | The result is 32 minus the number of binary digits, 32 for zero |
| LeadingZeros.CountLeadingZeros64 | fpu/softfloat-macros.h:647-667 | The result is 64 minus the number of binary digits, 64 for zero |
| LeadingZeros.DigitsIff | fpu/softfloat-macros.h:607-610 | A number has n digits if and only if it lies between the two neighbouring powers of two |
| JamShifts.Shift64RightJamming | fpu/softfloat-macros.h:57-83 | For every count the shifted word, with its lowest bit also set if a nonzero bit was lost |
| JamShifts.Shift64ExtraRightJamming | fpu/softfloat-macros.h:85-125 | For every count: the integer part, and an extra word whose top bit is the last bit lost and whose other bits are zero exactly if all earlier lost bits were |
| JamShifts.Shift128Right | fpu/softfloat-macros.h:127-160 | The right shift for counts below 64; from 64 on, where the code returns zero, it is a right shift if and only if the upper word is shifted out too |
| JamShifts.LosesUpperWord | fpu/softfloat-macros.h:127-160 | For example, 2^64 shifted right by 64 becomes 0 instead of 1 |
| JamShifts.Shift128RightJamming | fpu/softfloat-macros.h:162-204 | For every count the shifted two-word number with the sticky bit |
| JamShifts.Shift128ExtraRightJamming | fpu/softfloat-macros.h:206-274 | For every count: the two upper words of the shifted three-word number and the extra word for the lost bits |
| JamShifts.JamIsDivision | fpu/softfloat-macros.h:57-67 | A jamming shift is division by a power of two, made odd if there is a remainder |
| JamShifts.JamCompose | fpu/softfloat-macros.h:162-173 | Jamming by i and then by j is jamming by i + j |
| JamShifts.ShiftLeftWraps | fpu/softfloat-macros.h:153 | A left shift of a word is multiplication by a power of two modulo 2^64 |
| HostUtils.Product.Add | host-utils.c:34-40 | Two-word addition modulo 2^128 into the product |
| HostUtils.Product.Neg | host-utils.c:42-47 | Two-word negation modulo 2^128 |
| HostUtils.Product.Mulu64 | host-utils.c:50-82 | The product field holds the exact unsigned product |
| HostUtils.Product.Muls64 | host-utils.c:85-104 | The product field read as a two's complement number is the exact signed product, also for INT64_MIN |
| HostUtils.MultiplyBothWays | host-utils.c:50-73 | The two implementations of the 64-bit multiplication give the same words |
| Calendar.MkTimeGm | cutils.c:99-111 | The seconds since 1970 of a date and time: right if and only if they fit an int where time_t is as wide as an int, and where it is wider if and only if the day is at most 24855 from the epoch, because the product with 86400 is one of ints |
| Calendar.DayNumberCounts | cutils.c:99-111 | The reference count grows by exactly one from every calendar day to the next, across months, leap days and centuries |
| Calendar.SecondsCount | cutils.c:99-111 | The reference seconds grow by exactly one from every second of the clock to the next, across the ends of minutes, hours and days |
| Calendar.SecondFollows | cutils.c:99-111 | Every second but a leap second has a successor on the clock |
| Calendar.SecondsStart | cutils.c:99-111 | The first second of 1970 is second 0 |
| Calendar.LeapDays | cutils.c:107-108 | What follows 28 February: the leap years from 1901 to 2099, and 1900, 2000 and 2100 |
| Calendar.MonthEnds | cutils.c:99-108 | The lengths of the other months, and the end of the year |
| Calendar.ClosedFormIsDayNumber | cutils.c:107-108 | The closed form is the day-by-day count |
| Calendar.RightIff | cutils.c:99-111 | The same condition for the value that the int arithmetic yields, for both widths and all dates |
| Calendar.RightModulo | cutils.c:99-111 | For all positive years, a wrong result differs from the right one by a multiple of 2^32, and lies in the range that the int arithmetic leaves: so the result is known for these dates, right or wrong |
| Calendar.RoundsTowardZero | cutils.c:107-108 | Divisions round toward zero, so the remainder has the sign of the dividend |
| Calendar.NarrowFails | cutils.c:107-109 | With a time_t of 32 bits, 19 January 2038 04:00:00 comes out 2^32 seconds too early, though its day is in range |
| Calendar.WideFails | cutils.c:107-109 | With a wider time_t, 20 January 2038 04:00:00 does |
| Calendar.WideFailsEarly | cutils.c:107-109 | 13 December 1901 20:45:52, the first time that fits an int, is right with 32 bits and 2^32 seconds too late with a wider time_t |
| GuestClock.TimersState.GetTicks | qemu-timer.c:153-171 | A read of the cycle counter, which never goes back behind the last one |
| GuestClock.TimersState.GetClock | qemu-timer.c:174-183 | A read of the virtual clock |
| GuestClock.TimersState.EnableTicks | qemu-timer.c:202-209 | Starting the clocks |
| GuestClock.TimersState.DisableTicks | qemu-timer.c:213-220 | Stopping the clocks |
| GuestClock.TicksNeverDecrease | qemu-timer.c:153-171 | Over any run the cycle counts handed out never decrease, whatever the raw counter does, if and only if each first read after a start finds the raw counter no lower than at the start, or the last reading before the start was at least that high |
| GuestClock.FirstReadFalls | qemu-timer.c:153-209 | A raw counter that falls between a start and the first read takes the count back by the difference |
| GuestClock.TicksMeasureEnabledTicks | qemu-timer.c:153-220 | Over any run the cycle count is its initial offset plus exactly what the raw counter advanced by while enabled plus what its readings fell by in all |
| GuestClock.TicksExactly | qemu-timer.c:153-220 | So the count advances by exactly what the raw counter does while enabled if and only if no reading is lower than the one before |
| GuestClock.ClockMeasuresEnabledTime | qemu-timer.c:174-220 | Over any run the virtual clock is its initial offset plus exactly the host time during which it was enabled |
| GdbFraming.MemToHex | gdbstub.c:404-415 | The buffer holds two hexadecimal digits per byte and a terminator |
| GdbFraming.HexToMem | gdbstub.c:417-425 | The memory holds the bytes that pairs of digits spell |
| GdbFraming.HexRoundTrip | gdbstub.c:384-425 | Decoding the hexadecimal text of a memory block gives the block |
| GdbFraming.HexAt | gdbstub.c:404-415 | Every byte is two digits, the more significant one first |
| GdbFraming.UnHexAt | gdbstub.c:417-425 | Every pair of digits is read as such a byte |
| GdbFraming.Digits | gdbstub.c:384-402 | The 16 digits are sent in lower case; either case of a digit is read as its value |
| GdbFraming.OtherCharacters | gdbstub.c:384-394 | Any character that is not a digit is read as 0 |
| GdbFraming.PutPacketBinary | gdbstub.c:428-460 | What is sent is the framed payload, repeated until it is acknowledged or the input ends; the packet is kept for retransmission |
| GdbFraming.SignedSumIsChecksum | gdbstub.c:433-438 | Summing signed characters gives the protocol's checksum modulo 256 |
| GdbFraming.GdbState.ReadByte | gdbstub.c:2301-2375 | One byte read by the parser, in terms of the receiver function |
| GdbFraming.Reception | gdbstub.c:2301-2375 | From idle, a packet whose payload fits is answered with an acknowledgement and handled unchanged if and only if its checksum digits spell the checksum; otherwise it is refused |
| GdbFraming.FramingRoundTrip | gdbstub.c:428-460 | Feeding the bytes sent for a payload to the parser yields one acknowledgement and exactly that payload |
| GdbFraming.OkPacket | gdbstub.c:428-460 | The packet for OK, byte by byte; the parser accepts it also with the checksum in upper case, and answers a wrong checksum with a minus sign |
| GdbFraming.CorruptionDetected | gdbstub.c:2339-2368 | Changing one payload byte yields a refusal and no call of the handler |
| GdbFraming.AnyReception | gdbstub.c:2301-2375 | For payloads of any length: an overlong one loses its first 4096 bytes and everything up to the next start mark, so the answer and the handler call are those for what is left, or there are none if no start mark is left |
| GdbFraming.OverlongDropped | gdbstub.c:2339-2346 | A payload of 4096 bytes or more is dropped without an answer if no start mark comes after the first 4096 bytes |
| GdbFraming.OverlongEndHandled | gdbstub.c:2339-2368 | Any payload that fits can be the end of an overlong one that is sent correctly, and is then acknowledged and handled on its own |
| GdbFraming.AnyStream | gdbstub.c:2301-2375 | On any stream of bytes the line buffer never overflows and there are as many acknowledgements as handled packets |
| TailQueue.Queue.InsertHead | qemu-queue.h:271-279 | The element comes first; forward and back links stay those of the sequence |
| TailQueue.Queue.InsertTail | qemu-queue.h:281-286 | The element comes last |
| TailQueue.Queue.InsertAfter | qemu-queue.h:288-296 | The element comes right after the given one |
| TailQueue.Queue.InsertBefore | qemu-queue.h:298-303 | The element comes right before the given one, found through the address of the pointer to it |
| TailQueue.Queue.Remove | qemu-queue.h:305-312 | The element is gone and the others keep their order |
| TailQueue.Queue.Last | qemu-queue.h:336-337 | The last element, reached through the head cell that the last address lies in |
| TailQueue.Queue.Prev | qemu-queue.h:338-339 | The previous element |
| TailQueue.Queue.Traverse | qemu-queue.h:314-317 | A forward traversal visits the sequence |
| TailQueue.Queue.TraverseReverse | qemu-queue.h:324-327 | A reverse traversal visits the reversed sequence |
| CircleQueue.Circle.InsertAfter | qemu-queue.h:368-376 | The element comes right after the given one; the sentinels at both ends stay correct |
| CircleQueue.Circle.InsertBefore | qemu-queue.h:378-386 | The element comes right before the given one |
| CircleQueue.Circle.InsertHead | qemu-queue.h:388-396 | The element comes first |
| CircleQueue.Circle.InsertTail | qemu-queue.h:398-406 | The element comes last |
| CircleQueue.Circle.Remove | qemu-queue.h:408-419 | The element is gone and the others keep their order |
| CircleQueue.Circle.Traverse | qemu-queue.h:421-424 | A forward traversal visits the sequence |
| CircleQueue.Circle.TraverseReverse | qemu-queue.h:426-429 | A reverse traversal visits the reversed sequence |
| CircleQueue.Circle.LoopNext | qemu-queue.h:440-443 | The next element, or the first one after the last |
| CircleQueue.Circle.LoopPrev | qemu-queue.h:444-447 | The previous element, or the last one before the first |
| Timers.Clock.DelTimer | qemu-timer.c:487-504 | The list without the timer, unchanged otherwise; nothing happens if it is not active |
| Timers.Clock.ModTimer | qemu-timer.c:508-539 | The timer is removed and inserted behind all timers that expire no later; the result says whether it has become the first one, so that the alarm has to be rearmed |
| Timers.Clock.TimerPending | qemu-timer.c:541-549 | Whether the timer is active |
| Timers.Clock.RunTimers | qemu-timer.c:558-579 | Running the timers of a clock with callbacks that delete and arm timers fires, shows the callbacks and leaves what the specification says |
| Timers.WithoutKeeps | qemu-timer.c:487-504 | Removal keeps the list sorted and free of repetition and makes the timer inactive |
| Timers.WithKeeps | qemu-timer.c:514-531 | Insertion keeps the list sorted and free of repetition, in the order of arming among equal times |
| Timers.FiringIsSafe | qemu-timer.c:558-579 | Whatever the callbacks do, only due timers fire, none is due afterwards, and the list stays sorted and free of repetition |
| Timers.OffBeforeCallback | qemu-timer.c:568-577 | Whatever the callbacks do, each of them finds its own timer off the list |
| Timers.FiringInOrder | qemu-timer.c:558-579 | If the callbacks do nothing, exactly the due timers fire, in list order |
| Timers.LateArming | qemu-timer.c:558-579 | If callbacks arm timers only for later, the timers that fire are a subsequence of those due at first, so the loop ends |
| Timers.AfterOp | qemu-timer.c:487-539 | After an operation, a deleted timer is off the list, an armed one is on it with its new time only, and all others are as before |
| Timers.LastOpDecides | qemu-timer.c:558-579 | The last operation of the callbacks on a timer decides: armed for later it is on the list with that time when the run ends, deleted it is off |
| Timers.SilentScripts | qemu-timer.c:558-579 | A timer that is not due and that no callback concerns is on the list afterwards exactly if it was, with its time |
| Timers.ApplyAllKeeps | qemu-timer.c:487-539 | Any sequence of deletions and armings keeps the list sorted and free of repetition |
| TbLookup.Translator.FindSlow | cpu-exec.c:183-206 | The bucket scan finds the newest block made for the program counter and tag, or nothing exactly if there is none, and caches it |
| TbLookup.Translator.FindFast | cpu-exec.c:208-217 | The cached lookup finds exactly what the bucket scan would find |
| TbLookup.Translator.MakeTb | exec.c:295-338 | A new block, with the normal tag whatever was requested, is first in its chain and in the jump cache; the program aborts exactly if no block can be allocated |
| TbLookup.Translator.LinkPage | exec.c:409-422 | Linking a new block keeps every chain acyclic and ordered from newest to oldest |
| TbLookup.Translator.GetNextTb | cpu-exec.c:221-274 | The block returned is for the current program counter and has been translated, whatever the translation does with other blocks; it is the known one, if there was one.  Code is placed at the end of the buffer, and only for a block that has none; the program aborts exactly if there is no room for the blocks or the code.  A new block belongs to itself after a call or a return, to the destination after an indirect jump, to the function of the previous block after a direct exit or a system call, and otherwise to address 0 |
| TbLookup.Translator.GenCode | exec.c:351-375 | The code of a block begins at the end of the code buffer, which grows by its size; no other translation moves it; it fails exactly if there is no room |
| TbLookup.JmpCacheSlot | exec-all.h:211-217 | Every page and offset whose upper bits are zero has its own slot, so the jump cache is used in full |
| TbLookup.BucketIs | exec-all.h:219-222 | Blocks share a chain exactly if their program counters agree in the low 15 bits |
| TbLookup.NewestIsLatest | cpu-exec.c:183-206 | What newest means: absent exactly if no such block was made, and otherwise a matching block of the history |
| TbLookup.NewestAt | cpu-exec.c:183-206 | A matching block after which no matching one was made is the newest |
| TbLookup.NewestAfterMake | exec.c:295-338 | Making a block changes the newest block for its own program counter only |
| TbLookup.OnlyNormalTag | exec.c:304 | Since every block is made with the normal tag, a lookup with any other tag finds nothing |
| TbLookup.JumpLands | exec-all.h:243-248 | The displacement written for a direct jump makes it land on its target |
| TbLookup.JumpSources.Add | exec.c:281-293 | The ring holds the most recent jumps into a block |
| PageTable.PageMap.FindAlloc | exec.c:746-789 | Finds the leaf of a page, for any number of pages and levels; allocating on the way never changes the flags of any page |
| PageTable.PageMap.GetFlags | exec.c:804-812 | The flags of the flat map, zero for pages not allocated |
| PageTable.PageMap.SetFlags | exec.c:817-850 | Exactly the pages overlapping the range get the flags, with PAGE_WRITE_ORG if PAGE_WRITE is set - unless the range reaches from the first page into the last, when nothing changes |
| PageTable.SetsNothing | exec.c:833-839 | Setting the flags of all addresses but the last changes no page |
| PageTable.PageMap.CheckRange | exec.c:852-900 | A check without write access succeeds if and only if every touched page is valid and readable as asked, but for the same corner; a check for write access depends on the first page only: it fails if that is invalid, unreadable although asked, or was never writable, and ends the program exactly if it is as asked, was writable once and is not now |
| PageTable.ReadOnlyFaults | exec.c:852-900 | After setting flags without write access, a check for write access within the range fails, and never ends the program |
| PageTable.FlagBits | cpu-all.h:740-747 | The flags are the bits 0, 1, 3 and 4 of a number |
| PageTable.Overlaps | exec.c:833-839 | The pages of a range are those that contain one of its addresses |
| PageTable.PassesUnmapped | exec.c:871-880 | All addresses but the last pass as readable while nothing is mapped |
| PageTable.CheckOnePage | exec.c:882-899 | Within one page, the check for write access is right whatever is mapped |
| PageTable.WrongWriteCheck | exec.c:882-899 | For every range of more than one page there is a table for which the check for write access succeeds although a page of the range may not be written |
| PageTable.PageMap.CheckPage | exec.c:877-897 | The verdict on one page |
| PageTable.PageMap.DescriptorsDistinct | exec.c:760-786 | Different pages never share a descriptor |
| PageTable.PageMap.PathOfPrefix | exec.c:760-780 | The node of a page at any level is the node for the upper digits of its number |
| PageTable.StoredFlags | exec.c:829-831 | PAGE_WRITE_ORG is set exactly if it or PAGE_WRITE was given; the other flags are as given |
| PageTable.RoundedLength | exec.c:833-839 | The number of pages that the loops over a range visit in 32-bit arithmetic |
| RegionWalk.WalkData.WalkEnd | exec.c:656-670 | Ends a run and calls the callback for it |
| RegionWalk.WalkData.WalkSubtree | exec.c:672-708 | Walking a subtree of any level is walking its pages in the flat map, a missing subtree counting as pages without flags; a nonzero callback result stops it |
| RegionWalk.TrueBases | exec.c:695-703 | If the base of a subtree is the address of its first page, so are the bases of everything below it |
| RegionWalk.WalkTree | exec.c:710-729 | Walking the tree, with any number of pages and levels and any bases at the top, is walking the flat map of its flags |
| RegionWalk.WalkTrue | exec.c:672-729 | With true bases at the top, for any number of pages and levels, the walk with its final end call reports exactly the maximal runs of equal nonzero flags, or stops with the first nonzero result of the callback after a prefix of them |
| RegionWalk.WideTree | exec.c:118-151 | The tree of a target with 47 address bits, three levels below a top level of 32 entries, is one that these results apply to |
| RegionWalk.WholeReportsTheRuns | exec.c:656-728 | On the flat map, with true addresses, exactly the maximal runs of equal nonzero flags are reported, in increasing order |
| RegionWalk.RunsUnique | exec.c:656-728 | Only one report has these properties |
| RegionWalk.WholeFollows | exec.c:684-707 | A walk with a callback that may stop it reports a prefix, up to the first nonzero result |
| RegionWalk.WalkFrom | exec.c:710-729 | The walk over the tree of the i386 configuration, for any shift of the top-level bases |
| RegionWalk.WalkRegions | exec.c:710-729 | The walk as it is, whose top-level bases lack the page bits: it reports the true runs under wrong addresses; that is right if and only if the flags do not change after the first leaf, or, if the callback stops the walk, the last run reported ends within that leaf |
| RegionWalk.WrongAddresses | exec.c:721 | If only the page at 0x400000 is mapped, it is reported as the region from 0x400 to 0x1400 |
| GuestAccess.Guest.Strnlen | cutils.c:87-97 | The distance to the first zero byte, or the maximum |
| GuestAccess.Guest.TargetStrlen | linux-user/uaccess.c:42-65 | The result is the length of the string if and only if it has one: first zero byte at that distance, all pages on the way readable, none of them scanned from a null host address, end address not zero, length at most 2^31 - 1 |
| GuestAccess.Guest.Lock | linux-user/qemu.h:377-398 | Locking succeeds if and only if the range check does and the host address of the range is not null |
| GuestAccess.NeverNull | cpu-all.h:627-643 | No guest address has a null host address if and only if there is a guest base and the guest memory ends within the host addresses |
| GuestAccess.NothingAtZero | linux-user/uaccess.c:11-65 | Without a guest base, all three ways of reading fail at address 0, even if its page is mapped and readable |
| GuestAccess.Guest.CopyFromUser | linux-user/uaccess.c:11-24 | The whole range is copied if all its pages are readable and its host address is not null, and nothing otherwise - except that a range from the first page into the last one is taken as readable whatever is mapped |
| GuestAccess.Guest.CopyToUser | linux-user/uaccess.c:26-40 | The whole range is written depending on its first page only, and a range from the first page into the last one always; but nothing is written at a null host address |
| GuestAccess.Guest.RwDebug | exec.c:951-989 | The page-wise transfer is the byte-wise transfer up to the first byte on a page that does not permit it, or at a null host address where the transfer or a page begins |
| GuestAccess.FailsAtBoundary | exec.c:958-987 | A transfer fails only at the beginning of a page or with its first byte |
| GuestAccess.WriteThenRead | exec.c:951-989 | A read after a write returns the bytes written |
| GuestAccess.PeekPoke | exec.c:971-980 | Bytes stored one by one, also across the end of the address space, can be read back |
| ArgStrings.Arena.CopyStep | linux-user/elfload.c:966-991 | One round of the copying loop, with the offset kept equal to the position modulo the page size |
| ArgStrings.Arena.CopyStrings | linux-user/elfload.c:947-995 | The strings lie one after the other, in order, below the given position, in lazily allocated pages; the result is where they begin, or zero if they do not fit |
| ArgStrings.CollectStrings | linux-user/elfload.c:1500-1502 | The arguments, the environment and the program name lie in this order; zero exactly if they need more than the arena less one word |
| ArgStrings.FlatAt | linux-user/linuxload.c:139-152 | Each string lies where the strings before it end |
| ArgTables.SetupArgPages | linux-user/elfload.c:997-1035 | The arena is at the end of the new stack |
| ArgTables.PutWord | linux-user/linuxload.c:132-137 | Stores a word of the guest, or nothing if that is not permitted or the host address is null |
| ArgTables.WordDigits | linux-user/linuxload.c:132-137 | The bytes of a word of the guest, the least significant one first |
| ArgTables.FillTable | linux-user/linuxload.c:139-145 | Slot i points to string i, found by measuring the strings before it, and a null pointer follows |
| ArgTables.BuildArgptr | linux-user/linuxload.c:114-156 | The argument count, on request the table addresses, and both tables; nothing outside them is written |
| ArgTables.StringLength | linux-user/linuxload.c:144 | The measured length of a copied string is its length |
| ArgTables.PutTables | linux-user/linuxload.c:114-156 | Seen from the program: slot i of either table holds the address of a copy of string i with its zero byte, and null ends both |
| ElfTables.CreateElfTables | linux-user/elfload.c:1092-1172 | Below the strings lie the platform string, then in memory words the auxiliary vector with the platform first and the null entry last, and right below it the tables; the strings are not touched, no more space is left than alignment needs, and the stack pointer is 8 modulo 16 |
| ElfTables.EndMarkIsLast | linux-user/elfload.c:1139-1156 | A program that reads the auxiliary vector upwards finds the null entry behind all others |
| ElfTables.NeverAligned | linux-user/elfload.c:1118-1155 | Since 13 entries are pushed where the constant says 12, the stack pointer is never aligned to 16 bytes, for any counts |
| ElfTables.StartProgram | linux-user/elfload.c:1500-1502 | From the three copying calls to the finished stack: every slot holds the address of a copy of its string, both tables end in null, the count is at sp, the auxiliary vector lies right behind them, word by word, and nothing outside the stack is written |
| ByteOrder.BytesNum | thunk.c:135-146 | Storing a loaded number restores the bytes |
| ByteOrder.SwapNum | thunk.c:135-146 | Swapping a loaded word is loading it in the other byte order |
| ByteOrder.Halfword | thunk.c:135-137 | The value of two bytes in either byte order |
| ByteOrder.Word | thunk.c:138-140 | The value of four bytes in either byte order |
| ByteOrder.Doubleword | thunk.c:141-144 | Eight bytes are two words, the more significant one first in the big-endian order |
| ThunkTypes.NextIsEnd | thunk.c:35-59 | The next type begins where the description of a type ends |
| ThunkTypes.SkippedIsType | thunk.c:35-59 | Whatever is skipped as a type is the description of one |
| ThunkTypes.LayoutIsGood | thunk.c:91-106 | The computed layout: fields aligned, disjoint and inside, the size a multiple of the greatest alignment, nothing further to the front possible |
| ThunkTypes.LayoutIsUnique | thunk.c:91-106 | There is only one such layout |
| ThunkTypes.SizeAligned | thunk.h:81-152 | Sizes are multiples of alignments, so elements of arrays stay aligned |
| ThunkRegistry.Registry.TypeSizeIsSize | thunk.h:81-152 | Size and alignment computed from a description are those of the type, for both interfaces |
| ThunkRegistry.Registry.NotRegistered | thunk.c:30-31 | A structure number that is not registered yet has size and alignment 0 |
| ThunkRegistry.Registry.CountFields | thunk.c:75-82 | The number of fields up to the end mark |
| ThunkRegistry.Registry.RegisterStruct | thunk.c:66-113 | Registering a structure stores a good layout for both interfaces and changes no other entry; there is one such layout for given sizes and alignments |
| ThunkLayouts.ScalarSizes | thunk.h:81-105 | In numbers: a char takes 1 byte, a short 2, an int 4, a long long 8, and a long or a pointer as many as on its side |
| ThunkLayouts.CompoundSizes | thunk.h:97-111 | Pointers are as large as a long; arrays are as large as all their elements and aligned like one |
| ThunkLayouts.PointerDescribed | thunk.h:28-42 | The numbers that describe a pointer to an int |
| ThunkLayouts.Winsize | linux-user/syscall_types.h:3-4 | Registering four shorts stores the offsets 0, 2, 4 and 6, size 8 and alignment 2 for both interfaces |
| ThunkLayouts.Mixed | thunk.c:91-106 | Registering a char, an int, a short and a long long stores the offsets 0, 4, 8 and 16, size 24 and alignment 8 |
| ThunkLayouts.Ifconf | linux-user/syscall_types.h:48-49 | Registering an int and a pointer stores the offset, size and alignment of the pointer of either interface |
| ThunkLayouts.Nested | linux-user/syscall_types.h:14-30 | Registering a short with 14 characters, and then 16 characters with that structure, stores both layouts in numbers |
| ThunkLayouts.SideIs | thunk.c:91-106 | Placing the fields one by one from their sizes gives the layout that is stored |
| ThunkScalars.ConvertScalar | thunk.c:126-190 | A scalar is converted by value, in the byte order and size of either side; in numbers: 1 byte is read and written for a char, 2 for a short, 4 for an int, 8 for a long long, and for a long, an unsigned long and a pointer as many as on either side, cut off to the low 32 bits or extended, with the sign for a long only |
| ThunkScalars.ConvBack | thunk.c:147-190 | Converting a value there and back restores it exactly if it fits |
| ThunkConvert.ThunkConvert | thunk.c:126-243 | All scalars of an object are converted, no byte outside the object is written, and the result is the position after its description; for an object that is a scalar the bytes read and written are stated in numbers |
| ThunkConvert.ScalarIsMoved | thunk.c:134-190 | What converting a scalar means: these bytes read, these written, with this value |
| ThunkConvert.ConvertedArray | thunk.c:191-211 | An array is converted exactly if all its elements are, one after the other on either side |
| ThunkConvert.ConvertedStruct | thunk.c:213-235 | A structure is converted exactly if all its fields are, each from its offset in one layout to its offset in the other |
| ThunkConvert.ConvertFields | thunk.c:213-235 | The fields of a structure are converted between the offsets of the two layouts |
| ThunkConvert.ConvertElements | thunk.c:191-211 | The elements of an array are converted between the strides of the two layouts |
| ThunkConvert.LeavesApart | thunk.c:191-235 | The scalars of an object do not overlap in either layout |
| ThunkConvert.LeavesInside | thunk.c:191-235 | All scalars of an object lie within its size |
| ThunkConvert.RoundTrip | thunk.c:126-243 | There and back restores every scalar if and only if every scalar fits the other side |
| ThunkConvert.GuestRoundTrip | thunk.c:126-243 | From the guest to a host whose long is not smaller, and back, restores everything |
| ThunkConvert.NarrowHostLoses | thunk.c:174-189 | On a host with a smaller long, a value that is lost |

## Left out

- Translation itself: `gen_target_code`, the sieve and `chg_tbs_tag` are not part of this model.  A translation is an
  arbitrary script of lookups, block creations and placements that gives the block a fresh code address; placements of
  other blocks may be taken back, but not that of the block itself, for which something is emitted first.  The code
  buffer is taken not to contain the address 0xdeadbeaf, which marks blocks that are not translated.
- `tb_flush` ends the program (exec.c:254-255) and is modelled as that; `tb_free` is not modelled.
- Operating system calls, devices, sockets, logging, and failure of the host's allocator.
- Timers.Clock.ModTimer: rearming the host's alarm timer is not modelled, only when it is asked for; one clock's list is
  modelled, and `configure_alarms` is not.
- GuestClock.TimersState.GetTicks: models the case without instruction counting; counters are unbounded integers.
- GuestClock.TicksNeverDecrease: counters are unbounded integers, so wrap-around at 2^63 is not modelled.
- GdbFraming.GdbState.ReadByte: the handler of a packet is a sink that returns to the idle state; the states for a
  pending system call and the other parts of the stub are not modelled.
- PageTable.PageMap.CheckRange: a page that is only temporarily read-only ends the program, because invalidating its
  translated code does; so `page_unprotect` beyond that is not modelled.
- RegionWalk.WalkFrom: is for the i386 configuration, one level of leaves below a top level of 1024 entries;
  `RegionWalk.WalkTree` has no such restriction.
- RegionWalk.WalkRegions: is for the i386 configuration too, the one that is built.
- GuestAccess.Guest.TargetStrlen: page flags do not change during the scan; other threads are not modelled.
- ArgStrings.Arena.CopyStrings: string lengths are unbounded, so the truncation of a length of 2^31 or more to a C
  `int` is not modelled; the check for a null entry, which ends the program, is not modelled either.
- ElfTables.StartProgram: strings that do not fit are refused, as in linux-user/elfload.c:1661-1668, but what happens
  between the copying and that test is not modelled; a stack too small for the tables of very many short strings is
  excluded; the values of the auxiliary vector are parameters, and its entries are pushed in a loop.
- ArgTables.SetupArgPages: the new stack is given as an address range that is zero and writable, with no null host
  address in it.
- ThunkTypes.SkippedIsType: positions beyond the end of a description give no type, where C would read on;
  descriptions with a negative array length or structure number are excluded.
- ThunkRegistry.Registry.RegisterStruct: every number is registered once, with fields that use earlier numbers only;
  `thunk_register_struct_direct` and conversions by special functions are not modelled.
- ThunkConvert.ThunkConvert: pointers to described types are excluded, since `thunk_convert` has no case for them;
  source and destination do not overlap; sizes are unbounded integers.
- The two simpler queue families (`QLIST`, `QSIMPLEQ`), the I/O vectors, the environment list, the symbol tables and
  the ELF and flat loaders apart from the argument strings: they would add easier members of the same kinds.
