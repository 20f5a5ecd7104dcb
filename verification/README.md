# Verified model of the firmware's byte-stream path and table logic

A Dafny model of the stateful cores of this STM32 firmware: the debug channel (SEGGER RTT), the
pointer ring behind every software queue, the console over CAN, the bounded formatter, the
switch's ACL compiler and multicast table, the powerup variables in NOR flash, the nanosecond
clock and the baud rate divider. Code that changes state step by step is modelled by classes and
methods with the source's loops, each proved against a pure specification; what the source
promises is proved about those specifications, over all inputs and all runs. Hardware is an
array, a register or a nondeterministic step.

`dafny verify dfyconfig.toml` checks the whole project.

## Structure

| Modules | What they hold | Main results |
|---|---|---|
| `Prelude`, `CircularBuffer` | shared notions; windows over circular storage, `memcpy` | shared by all rings |
| `RttRing`, `RttTerminal` | up-buffer with a debug host that cuts in between any two steps; terminal switching in band | `WriteBlocking`, `Session`, `StepsObey`, `SmallRunIsWhole` |
| `RttOverwrite` | the writer that moves the host's offset | `OverwriteExact` |
| `RttRead` | down-buffer read while the host appends | `ReadNoLock` |
| `RingQueue` | the pointer ring as a bounded FIFO, with the memory cell behind its array | `Replay`, `FrontPtr`, `CallBackPush` |
| `CanStream`, `CanConsole` | the stream as a function of what the hardware answers; byte queue, fragmenter, frame queue | `RunConserves`, `LosesExactly`, `Delivers`, `Console.Session` |
| `Numerals`, `Formatter`, `FormatText`, `FormatMeaning`, `FormatWriter` | digit loop, parser and renderer, written form, what a reader gets, bounded writer | `FormatBounded`, `PieceShows`, `PrecisionExact`, `ParseInvertsWriting` |
| `AclFields`, `AclList` | match fields compiled into five rule templates | `CompileAnyOrder`, `FlagOffsetExact`, `TypeCodeExact` |
| `AclBits`, `AclMatch`, `AclPackets` | which packets the compiled words and the stored slots match | `FieldMeansExact`, `FilterMeans`, `StoredFilterMeans` |
| `AclActions`, `AclDecode` | action merging and its decoder | `AcceptedExact`, `LastActionsComeBack`, `ForwardShows` |
| `AclDriver`, `AclConfig` | table layout, slot allocation | `RuleComesBack`, `Table.CfgAdd`, `ReportAfterAdd`, `GetLeavesTable` |
| `Words`, `Flash`, `PowerupStore` | bitwise words, NOR flash with erase marks, the variable field | `Store.Run`, `BootKeeps`, `RunStaysSettled`, `StoresExactly` |
| `MulticastTable` | 64 slots as a finite map | `Table.Replay`, `RepliesExact`, `GetReturnsLastAdd` |
| `TickClock` | three racing reads of counter and register | `ExactWhen`, `Clock.GetTimeNs` |
| `BaudRate` | divider arithmetic | `AccurateExact` |

## Where the code does not do what it means to

Each item is modelled as the code has it; the lemma named gives the exact condition.

- The overwriting writer sets its room to `SizeOfBuffer - 1` after a wrap, one byte short, so a second
  wrap leaves the last slot stale and the newest bytes are not what the host reads
  (`RttOverwrite.OverwriteExact`: right if and only if `n < 2 * Size - 1 - WrOff`).
- A bulk pop that ends at the end of the array leaves `front_ptr_` one past it. `empty()` is then wrong
  on exactly one state (`RingQueue.RingQueue.Empty`). With elements in the queue `front_ptr()` then
  exchanges the oldest one with the memory cell behind the array; it keeps queue and cell if and only
  if the front was inside the array, the queue was empty, or the cell held that element already
  (`RingQueue.RingQueue.FrontPtr`, `RingQueue.RotationExact`; `RingQueue.LosesOldest` gets there with
  five calls). `call_back_push` never does.
- The digit loop fails for every precision above 10 (decimal) or 8 (hexadecimal): the weight
  overflows 32 bits, and the loop prints something else or divides by zero (`Numerals.PrecisionExact`).
- The default template index of the pattern-match field is 0xFF, outside the five templates
  (`AclList.DefaultsInRange`).
- An IPv4 offset above 13 bits or an ICMP code above 8 bits writes into the other half of its word. The
  order of flags and offset on one word shows if and only if, in value or mask, one of the upper three
  bits of the 16-bit offset is not among the flags (`AclFields.FlagOffsetExact`; `AclFields.OrderShows`
  has offset 0x2000 beside no flags); for an ICMP type and code it is the upper eight bits
  (`AclFields.TypeCodeExact`, `AclFields.OrderShowsIcmp`).
- The operands of a VLAN tag, of IPv4 flags and of TCP flags are or-ed into one word without being cut, so
  one that is too wide is taken for its neighbour (`AclMatch.TagSpills`: VLAN identifier 0x1000). A field
  matches what it says if and only if no such bit matters (`AclMatch.FieldMeansExact`).
- COPY_CPU is stored with the code of MIRROR and read back as MIRROR; ADD_DSTPORT to just the CPU
  port reads back as COPY_CPU; REDIRECT to no port reads back as DROP (`AclDecode.ForwardShows`; exact
  condition in `AclDecode.ForwardComesBack`).
- The range check of POLICING_3 looks at the priority, not at the meter, and the GPO pin is cut to four
  bits (`AclDecode.PriorityOperandComesBack`, `AclDecode.OtherOperandsComeBack`).
- The rule reader reduces the three highest port bits modulo 7 where it means to mask with 7
  (`AclDriver.RuleComesBack`: right unless all three are set and cared for).
- `cfg_add` at slot 0 with a filter that compiles to no rule computes `0 + 0 - 1` unsigned and reports a
  bad index, while at any other slot the same filter succeeds and writes nothing
  (`AclConfig.Table.CfgAdd` with `AclConfig.EmptyFilter`).
- `getFreeSize` claims 64 bytes of room on a full frame queue without acknowledge, and the bytes handed
  over are dropped. A poll loses bytes if and only if it finds the device idle, the frame queue full and
  bytes waiting, and either the second sample of the error code shows no acknowledge or the first does
  and at most 64 bytes wait (`CanStream.LosesExactly`; in terms of the state before the poll:
  `CanStream.LosesOnDeadBus`). `CanStream.LosingRun` starts from an empty console and loses a byte,
  whatever the sizes of the two queues.
- The flash writer erases one sector however far the buffer reaches (`Flash.StoresExactly`).
- A field whose count was never written is taken to hold all variables, so `initInApp` on erased flash
  keeps 0xFFFFFFFF for them and uses no default (`PowerupStore.ErasedGetsNoDefault`); variable i gets its
  default if and only if the stored count is at most i (`PowerupStore.DefaultExact`).
- `pvf::write` to VAR_NUM_OF_VAR leaves the check word where the old count had it. The field verifies
  afterwards in exactly the cases of `PowerupStore.VerifiesAs`, among them any larger count at an even
  distance (`PowerupStore.WriteVerifies`). The next boot repairs it, unless the count is 13 to 256
  (`PowerupStore.BootSettles`).
- `cfg_get` looks up the place of the advanced packet-type masks with the care bits of the type, which
  are 7 in every rule that `cfg_add` writes, in a table of five rows. It does so on exactly those slots
  whose template has a word for these packet types, that is 0, 1 and 4 (`AclConfig.GetLeavesTable`).
- The baud rate fraction is rounded and then masked, so a carry into the mantissa is lost
  (`BaudRate.AccurateExact`: accurate unless the fraction is 97 hundredths or more, 94 with eight samples).
- The clock's result is right only while the millisecond counter has not wrapped past 31 bits
  (`TickClock.ExactWhen`).

## Scope the code forces

Preconditions that come from the code: a nonzero length for the skip and the overwrite writer (their
`do … while (--NumBytes)` loops), buffer and data that fit one 32-bit address space together, C strings
without a NUL inside, a format that does not end inside a conversion (`Parse` reports it) with arguments
of the kinds it names, no INT_MIN for `%d` (its negation is undefined) and no precision on which the digit
loop divides by zero or leaves its table, a destination size up to INT_MAX, and ring sizes that fit the
16-bit length field. Terminal text contains no 0xFF. Where the code would leave an array (a stored
variable count that overruns the shadow array, a match field outside the templates, a type outside the
table of `cfg_get`, flash addresses outside the main flash) or shift a word by its width (an IPv4 address
with more than two positions) the method reports that, with the exact condition, and nothing is modelled
beyond it. The host may act between any two steps of the target, except in the overwriting writer, which
moves the host's own offset. The blocking writer may wait for ever; a `patience` parameter ends the
observation after that many polls that found the ring full. What the CAN hardware answers during a
poll is an input. Drivers and flash operations succeed. VLAN, port and meter lookups are functions; the
decoding theorems ask that those of the request's own operands can be undone (`AclActions.EnvOk`), and
`cfg_add` that port masks fit eleven bits (`AclConfig.PortsFit`).

## Model

| member | source | states |
|---|---|---|
| RttRing.UpRing.HostStep | logger/SEGGER_RTT.c:327-358 | the interference every contract of the ring tolerates: the host takes unread bytes; nothing published changes and the free space only grows |
| RttRing.UpRing.GetAvail | logger/SEGGER_RTT.c:438-454 | the sampled free space is conservative: between the free space before the call and that after it, wherever the host cuts in |
| RttRing.UpRing.WriteNoCheck | logger/SEGGER_RTT.c:378-401 | data that fits is appended to the published stream, in one chunk or two, no unread byte is overwritten |
| RttRing.UpRing.Poll | logger/SEGGER_RTT.c:332-356 | one round of the blocking loop publishes a prefix, up to the host's offset or the wrap, and stalls only on a full ring |
| RttRing.UpRing.WriteBlocking | logger/SEGGER_RTT.c:327-358 | published stream grows by exactly the bytes reported; if the data fitted at entry it completes in at most two rounds with no stall, host progress or not; otherwise at least the room at entry is filled |
| RttRing.UpRing.WriteSkipNoLock | logger/SEGGER_RTT.c:669-754 | all of the data or nothing is published, and all of it whenever it fitted at entry |
| RttRing.UpRing.WriteNoLock | logger/SEGGER_RTT.c:779-829 | per mode: skip stores everything iff it fits the sampled space, trim exactly min(length, sampled space), blocking everything once done, unknown modes nothing; stream = old stream ++ the bytes reported |
| RttTerminal.ReceiveFramed | logger/SEGGER_RTT.c:1381-1454 | a host that decodes switch, payload, switch back files the payload under the addressed terminal and ends where it was |
| RttTerminal.SeenGrows | logger/SEGGER_RTT.c:416-422 | a host that lags behind has a prefix of the final records |
| RttTerminal.Channel.SetTerminal | logger/SEGGER_RTT.c:1331-1362 | succeeds exactly in blocking mode or with two sampled bytes free; the active terminal and the two escape bytes change together, or neither does, and with two free bytes it never waits |
| RttTerminal.Channel.PostTerminalSwitch | logger/SEGGER_RTT.c:416-422 | publishes exactly the escape; with two free bytes it needs no host progress and at most two rounds |
| RttTerminal.Channel.PostFramed | logger/SEGGER_RTT.c:1409-1441 | switch, text, switch back are published as one frame; with four bytes more than the text free, without waiting and in at most two rounds per inner write |
| RttTerminal.Channel.TerminalOut | logger/SEGGER_RTT.c:1381-1454 | skip mode sends the whole text iff len + 4 fits the sampled space, trim mode exactly min(len, avail - 4), blocking mode everything; both never wait, with at most two rounds per inner write |
| RttTerminal.Channel.Call | logger/SEGGER_RTT.c:1331-1454 | each call changes active terminal, records and free space exactly as its answer says, and waits only in blocking mode for want of room |
| RttTerminal.Channel.Session | logger/SEGGER_RTT.c:1331-1454 | any run goes to its end unless a blocking call lacks room; every call sends exactly what mode and sampled space call for, the sample is conservative, the free space shrinks only by what is sent, and the host's records are exactly each call's bytes under that call's terminal |
| RttTerminal.RoomIsEnough | logger/SEGGER_RTT.c:1402-1446 | a call that finds room for its frame sends all of it, and SetTerminal switches |
| RttTerminal.SmallRunIsWhole | logger/SEGGER_RTT.c:1331-1454 | a run that needs no more than the free space at its start completes and delivers everything, in any modes, with any host |
| RttTerminal.StepsObey | logger/SEGGER_RTT.c:1331-1454 | every call of a run puts on record what its mode allows of its data: all or nothing when skipping, the front that fits when trimming (four bytes less for TerminalOut), all when blocking; a refused call sends nothing at all |
| RttTerminal.Identifiers | logger/SEGGER_RTT.c:235 | the terminals are named 0 to 9 and A to F |
| RttOverwrite.FillOnce | logger/SEGGER_RTT.c:614-642 | slot by slot, what the ring holds after a write that wraps at most once |
| RttOverwrite.KeepsNewestShort | logger/SEGGER_RTT.c:585-643 | such a write leaves the last min(total, Size - 1) bytes of old content ++ data, across both wraps |
| RttOverwrite.LosesNewestLong | logger/SEGGER_RTT.c:614-642 | every longer length has a concrete data for which the newest bytes are lost |
| RttOverwrite.OverwriteExact | logger/SEGGER_RTT.c:585-643 | all data of length n are kept as promised iff n < 2 * Size - 1 - WrOff |
| RttOverwrite.WriteWithOverwriteNoLock | logger/SEGGER_RTT.c:585-643 | the 32-bit routine refines the specification the two previous rows are about |
| RttRead.ChunksCover | logger/SEGGER_RTT.c:488-524 | the two chunk lengths add up to min(size, used) even when WrOff - RdOff wraps below zero |
| RttRead.DownRing.ReadNoLock | logger/SEGGER_RTT.c:479-528 | returns exactly the oldest min(size, available) bytes in order, removes them and no others, with a host appending at any moment |
| RingQueue.RunConserves | utility/ringque.h:85-210 | over any run: initial queue ++ accepted = handed out ++ final queue, in order |
| RingQueue.TripleFlip | utility/ringque.h:242-246 | three reversals are a left rotation |
| RingQueue.RotatedInside | utility/ringque.h:242-246 | with the front inside the array they spare the memory behind it |
| RingQueue.RotatedParked | utility/ringque.h:242-246 | with the front one past the end they exchange slot 0 with the cell behind the array |
| RingQueue.RotationExact | utility/ringque.h:242-246 | content and foreign cell survive iff the front was inside the array or the cell held the oldest element |
| RingQueue.LosesOldest | utility/ringque.h:58-66 | push_array 3, pop_array 2, push_array 2, pop_array 2 on four slots, then front_ptr(): the element left is replaced by foreign memory |
| RingQueue.RingQueue.Empty | utility/ringque.h:47 | empty() tells the truth iff not (front one past the end and back at the start) |
| RingQueue.RingQueue.Front | utility/ringque.h:51 | the reference is the oldest element, or the cell behind the array when the front rests there |
| RingQueue.RingQueue.ElemsInQue | utility/ringque.h:110-116 | pointer distance is the length of the content, also with front one past the end |
| RingQueue.RingQueue.EmptyElemsInQue | utility/ringque.h:123-126 | remaining capacity, of MEM_LEN_ - 1 |
| RingQueue.RingQueue.Push | utility/ringque.h:85-91 | appends unless full |
| RingQueue.RingQueue.Pop | utility/ringque.h:98-103 | removes the oldest unless empty |
| RingQueue.RingQueue.PushArray | utility/ringque.h:134-168 | appends exactly the prefix that fits, in one piece or two |
| RingQueue.RingQueue.PopArray | utility/ringque.h:176-210 | hands out the oldest min(len, elements) in order and leaves the rest, also when it parks front one past the end |
| RingQueue.RingQueue.Reverse | utility/ringque.h:260-278 | the cells of the range are mirrored, all others kept, pointers in either order and one past the end included |
| RingQueue.RingQueue.AlignQue2Array | utility/ringque.h:228-254 | same content, now from index 0; from the parked state the oldest element and the cell behind the array are exchanged |
| RingQueue.RingQueue.FrontPtr | utility/ringque.h:58-66 | the content as one slice of the array; queue and foreign memory are kept iff the front was inside the array, the queue empty, or the foreign cell equal to the oldest element |
| RingQueue.RingQueue.BackPtr | utility/ringque.h:72-79 | all free room in one in-bounds slice behind the content |
| RingQueue.RingQueue.CallBackPush | utility/ringque.h:212-220 | the callback gets an in-bounds region disjoint from live elements; exactly the reported bytes are appended, whatever it scribbles there |
| RingQueue.RingQueue.Replay | utility/ringque.h:85-210 | any run of push, pop, push_array, pop_array refines the bounded FIFO and conserves elements |
| CanStream.FlatAppend | logger/CCanConsole.cpp:69-95 | payloads of joined frame lists are joined |
| CanStream.ChunksFlat | logger/CCanConsole.cpp:77-93 | the pieces of eight bytes and the rest concatenate to the bytes cut |
| CanStream.CopyLen | logger/Console.cpp:138-151 | with room in the frame queue: the minimum of queue, device and temporary buffer, and never more than the free frames hold |
| CanStream.PollMoves | logger/Console.cpp:122-156 | how many bytes leave the queue in a poll: as many as are there, fit the free frames and are no more than 32, if the device is drained or its bus has been dead for long; none otherwise |
| CanStream.DrainedPoll | logger/CCanConsole.cpp:26-137 | on a drained device those bytes are then in frames of at most eight, in order, and what waited is on the wire |
| CanStream.Delivers | logger/Console.cpp:122-156 | with mailboxes that take frames and finish, finitely many polls put every accepted byte on the wire, in order |
| CanStream.PollKeeps | logger/Console.cpp:124-156 | wire ++ frames ++ queue is unchanged by a poll that loses nothing, and shorter by exactly the bytes counted as lost otherwise |
| CanStream.LosesExactly | logger/CCanConsole.cpp:45-61 | a poll loses bytes iff the device is found idle, the frame queue full, bytes wait, and the device claims room; it then loses min(64, waiting) |
| CanStream.LosesOnDeadBus | logger/CCanConsole.cpp:117-138 | in terms of the state before: iff more than 3000 polls without acknowledge, still none, a full frame queue, no mailbox taking a frame, bytes waiting and room claimed |
| CanStream.RunConserves | logger/Console.cpp:60-156 | over any run: wire ++ frames ++ queue = what was there ++ all accepted bytes iff no event of the run meets the losing condition |
| CanStream.GivesUp | logger/CCanConsole.cpp:117-138 | on a dead bus with a full frame queue, 3002 polls lose min(64, waiting) accepted bytes |
| CanStream.LosingRun | logger/Console.cpp:60-156 | from an empty console of any frame queue and any byte queue that holds a byte: one run accepts a byte for every frame and one more, and loses exactly one |
| CanConsole.CanRouter.RunTransmitter | HAL/CCan.cpp:376-391 | exactly as many frames as the mailboxes take move from queue to wire, in order |
| CanConsole.CanRouter.PutMsg | HAL/CCan.cpp:435-441 | appends the frame, or drops it on a full queue and nothing else |
| CanConsole.CanDevice.GetFreeSize | logger/CCanConsole.cpp:45-61 | 64 on a full queue without acknowledge, else eight bytes per free slot up to 32 |
| CanConsole.CanDevice.IsIdle | logger/CCanConsole.cpp:117-138 | idle iff the queue has drained into finished mailboxes, or acknowledges have been missing for more than 3000 polls; the counter wraps at 16 bits |
| CanConsole.CanDevice.Fragment | logger/CCanConsole.cpp:77-93 | the pieces of the bytes join the frame queue in order; on a full queue none does |
| CanConsole.CanDevice.Write | logger/CCanConsole.cpp:69-95 | reports min(length, free size) and queues exactly those bytes, or drops them on a full queue |
| CanConsole.Console.Offer | logger/Console.cpp:135-151 | finds the device idle or not, and the length to move, as the samples have it |
| CanConsole.Console.RunTransmitter | logger/Console.cpp:124-156 | takes the pipeline exactly where the specification does, for every answer of the hardware |
| CanConsole.Console.SendArray | logger/Console.cpp:60-68 | the same after accepting exactly what fits, whose length it returns |
| CanConsole.Console.Putc | logger/Console.cpp:98-104 | the same for one byte, dropped silently on a full queue |
| CanConsole.Console.Session | logger/Console.cpp:60-156 | any run of events ends where the specification ends and accepts what it accepts; so bytes are conserved iff no event meets the losing condition |
| Numerals.DigitsValue | logger/rtt_vsnprintf.c:198-206 | a printed numeral has the value it was printed from |
| Numerals.LeadingDigit | logger/rtt_vsnprintf.c:198-206 | printing from the leading weight down gives the numeral |
| Numerals.PrecisionEnough | logger/rtt_vsnprintf.c:177-206 | search and output loop print the numeral with max(precision, digits) digits, without overflow of Digit |
| Numerals.PrecisionExact | logger/rtt_vsnprintf.c:177-206 | they do iff the precision is at most 10 (decimal) or 8 (hexadecimal), for every value |
| FormatText.ParseInvertsWriting | logger/rtt_vsnprintf.c:332-397 | the written form of any list of plain characters and conversions is scanned back to that list |
| Formatter.PrintsNumeral | logger/rtt_vsnprintf.c:177-206 | within the precision bound the renderer's digits are the numeral |
| Formatter.IntReadsBack | logger/rtt_vsnprintf.c:222-292 | every printed int reads back to itself and has length max(width, sign + max(precision, digits)), for all flags and precisions up to 10 |
| Formatter.UnsignedReadsBack | logger/rtt_vsnprintf.c:132-216 | the same for unsigned values in both bases, for precisions up to 10 or 8 |
| Formatter.FlagsExact | logger/rtt_vsnprintf.c:337-349 | the flags are those in the longest run of flag characters, in any order |
| Formatter.ModifiersExact | logger/rtt_vsnprintf.c:383-394 | the longest run of length modifiers is skipped |
| FormatMeaning.PieceShows | logger/rtt_vsnprintf.c:398-441 | specifier by specifier what a reader gets: the argument as int, or as unsigned in base 10 or 16, with its sign, length and padding; the character, the string, a percent sign, nothing |
| FormatMeaning.ArgumentTaken | logger/rtt_vsnprintf.c:398-441 | which conversions take an argument |
| FormatMeaning.RenderShows | logger/rtt_vsnprintf.c:317-448 | the text of a format is that of its pieces, each showing its own argument |
| FormatWriter.CountDigits | logger/rtt_vsnprintf.c:146-150 | the width loop counts the digits |
| FormatWriter.FindWeight | logger/rtt_vsnprintf.c:180-192 | the search loop refines the search function, for every precision |
| FormatWriter.Descriptor.StoreChar | logger/rtt_vsnprintf.c:117-126 | the buffer always holds the first characters offered, as many as fit, and nothing behind them changes |
| FormatWriter.Descriptor.PrintUnsigned | logger/rtt_vsnprintf.c:132-216 | refines the renderer, for every precision the digit loop survives |
| FormatWriter.Descriptor.PrintInt | logger/rtt_vsnprintf.c:222-292 | refines the renderer, for all ints but the least and every precision the digit loop survives |
| FormatWriter.Descriptor.Convert | logger/rtt_vsnprintf.c:398-441 | the specifier switch refines the renderer and takes as many arguments |
| FormatWriter.ScanConversion | logger/rtt_vsnprintf.c:333-397 | flag, width, precision and modifier loops refine the parser |
| FormatWriter.FormatBounded | logger/rtt_vsnprintf.c:317-448 | buffer and return value are exactly the first min(total, size) characters and their count of texts that show each argument as its specifier asks, for the pieces the format was written from; arguments consumed do not depend on the size |
| AclFields.FieldsCommute | RTL8370MB/API/acl.c:222-513 | compatible fields compile alike in either order |
| AclFields.OrderDoesNotMatter | RTL8370MB/API/acl.c:548-553 | every permutation of a pairwise compatible list compiles to the same words and valid templates |
| AclFields.OrderExact | RTL8370MB/API/acl.c:222-513 | for two fields the order is immaterial iff their writes to shared words merge alike |
| AclFields.OrderExactBits | RTL8370MB/API/acl.c:222-513 | the same bit by bit: whatever one of two writes to a shared word sets, the other keeps or sets too |
| AclFields.FlagOffsetExact | RTL8370MB/API/acl.c:334-367 | IPv4 flags and offset compile alike in either order iff they share no word or the upper three bits of the offset, in value and mask, are flags anyway |
| AclFields.TypeCodeExact | RTL8370MB/API/acl.c:456-479 | the same for an ICMP type and the upper eight bits of a code |
| AclFields.OrderShows | RTL8370MB/API/acl.c:334-367 | offset 0x2000 beside flags 0 at the default position compiles differently in the two orders |
| AclFields.OrderShowsIcmp | RTL8370MB/API/acl.c:456-479 | so does code 0x100 beside type 0 |
| AclFields.MixIsCompatible | RTL8370MB/API/acl.c:222-513 | fields on words of their own, IPv4 flags with a 13-bit offset, ICMP type with an 8-bit code are compatible |
| AclFields.CompileAnyOrder | RTL8370MB/API/acl.c:222-513 | so any list of such fields compiles the same in every order |
| AclList.DefaultsInRange | RTL8370MB/API/acl.c:53-108 | every default position lies in the templates, except that of the pattern-match field |
| AclList.DefaultsCompile | RTL8370MB/API/acl.c:53-108 | a field of the type's own pattern, added without positions, compiles iff it is not a pattern-match field |
| AclList.FilterCfg.Append | RTL8370MB/API/acl.c:198-217 | the three cases of the source link the given node behind the last one, whatever it is, and change no other link |
| AclList.FieldAdd | RTL8370MB/API/acl.c:173-220 | gives the field default positions if it has none and links it; the list grows by the field and what hangs on it if none of that was in the list; errors leave the list alone |
| AclList.WriteDataField | RTL8370MB/API/acl.c:222-513 | the in-place writes refine the field's effect on words and valid flags |
| AclList.SoundIsAllValid | RTL8370MB/API/acl.c:222-513 | a list has no defect iff every field stays inside the arrays and shifts no bit out |
| AclList.CompileList | RTL8370MB/API/acl.c:537-553 | the list walk compiles the whole list, or reports what the first defective field does: use an array past its end, or shift a word by its width |
| AclMatch.TrimmedMeans | RTL8370MB/API/acl.c:222-513 | for every pattern, the words of a field with operands cut to width match a packet word iff it agrees with the header fields under their masks |
| AclMatch.FieldMeansExact | RTL8370MB/API/acl.c:222-513 | uncut, they do iff no operand spills over into bits that matter |
| AclMatch.TagSpills | RTL8370MB/API/acl.c:322-332 | VLAN identifier 0x1000 does |
| AclMatch.HalvesAgree | RTL8370MB/API/acl.c:260-272 | two words agree with the halves of an address iff high << 16 or low agrees with the address |
| AclMatch.CompiledHits | RTL8370MB/API/acl.c:548-553 | a packet matches what a list adds to any rules iff it matches the rules and every field, if no field touches another's bits |
| AclMatch.FilterMeans | RTL8370MB/API/acl.c:548-553 | a packet matches a compiled list iff it agrees with every field |
| AclMatch.TemplatesTakePart | RTL8370MB/API/acl.c:228-233 | a template becomes valid iff some field has a position in it |
| AclActions.FoldCloses | RTL8370MB/API/acl.c:668-958 | the action loop accepts a request iff every enabled action passes its check, and ends in the closed form of the last action of each group |
| AclActions.NoTagYet | RTL8370MB/API/acl.c:668-958 | no tag action precedes a VLAN action or MIRROR, and no ISOLATION precedes MIRROR, so MIRROR's slip (it clears cact_ext) is harmless |
| AclActions.MergeActions | RTL8370MB/API/acl.c:668-958 | the loop with its early error returns refines the fold |
| AclActions.AcceptedExact | RTL8370MB/API/acl.c:668-958 | a request is taken iff every enabled action finds its operand: VLAN known, meter, priority and DSCP in range, ports mapped; all other actions ask nothing |
| AclActions.CodesAreOffsets | RTL8370MB/API/acl.h:74-77 | the code of an action is its place in the enumeration, counted from the first of its kind |
| AclDecode.LastIsLast | RTL8370MB/API/acl.c:668-958 | what the merge keeps for a group is the enabled action that stands last in the order |
| AclDecode.ClosedFits | RTL8370MB/API/acl.c:668-958 | every merged action fits its bit fields |
| AclDecode.LastActionsComeBack | RTL8370MB/API/acl.c:1203-1312 | of the CVLAN, SVLAN, priority and tag groups, cfg_get enables exactly the last enabled action that cfg_add saw |
| AclDecode.VlanOperandsComeBack | RTL8370MB/API/acl.c:1203-1312 | with the VLAN identifiers and meters it was given |
| AclDecode.PriorityOperandComesBack | RTL8370MB/API/acl.c:1203-1225 | with its priority; for POLICING_3 the meter comes back iff it is below 128 |
| AclDecode.ForwardComesBack | RTL8370MB/API/acl.c:1139-1195 | the forwarding action comes back iff it is not COPY_CPU, ADD_DSTPORT to the CPU port alone, or REDIRECT to none; then with its ports |
| AclDecode.ForwardShows | RTL8370MB/API/acl.c:1139-1195 | cfg_get enables exactly one forwarding action if any was stored: the last one, but MIRROR for COPY_CPU, COPY_CPU for ADD_DSTPORT to the CPU port alone, DROP for REDIRECT to none |
| AclDecode.ForwardPortsShow | RTL8370MB/API/acl.c:1139-1195 | the ports shown with it: those of the request, the CPU port for COPY_CPU, none for an action without ports |
| AclDecode.OthersComeBack | RTL8370MB/API/acl.c:1197-1326 | meter, interrupt and GPO come back |
| AclDecode.OtherOperandsComeBack | RTL8370MB/API/acl.c:1197-1326 | the meter index with them; the pin iff it is below 16 |
| AclDecode.ExtensionMeans | RTL8370MB/API/acl.c:668-958 | cact_ext ends BOTHVLANTAG iff some VLAN action and some tag action are enabled |
| AclDriver.RuleComesBack | RTL8370MB/API/rtl8367c_asicdrv_acl.c:428-526 | a rule written and read back is the rule with data masked by care, iff not all three highest ports are set and cared for |
| AclDriver.FieldsComeBack | RTL8370MB/API/rtl8367c_asicdrv_acl.c:428-526 | type, tags, words and validity come back whatever the ports are |
| AclDriver.ActComesBack | RTL8370MB/API/rtl8367c_asicdrv_acl.c:120-189 | packing the fifteen action fields into four words loses nothing |
| AclDriver.ActLayout | RTL8370MB/API/rtl8367c_asicdrv_acl.c:148-173 | which bits of the four words each field has |
| AclDriver.InfoLayout | RTL8370MB/API/rtl8367c_asicdrv_acl.c:82-91 | which bits of the info and extension words ports, tags and type have |
| AclDriver.SlotDemands | RTL8370MB/API/rtl8367c_asicdrv_acl.c:97-114 | the data side of a slot holds the bits that must be set, the care side those that must be clear: a word misses both where it differs from the rule in a bit cared for |
| AclConfig.PlaceTags | RTL8370MB/API/acl.c:569-600 | the advanced packet types go to the first template in use that takes them, else to template 0, which becomes valid |
| AclConfig.AdvancedPlaced | RTL8370MB/API/acl.c:569-600 | one word of one template among 0, 1 and 4 changes, the first in use if any is |
| AclConfig.CountRules | RTL8370MB/API/acl.c:602-612 | the number of valid templates |
| AclConfig.EntryAt | RTL8370MB/API/acl.c:973-998 | slot k of a filter holds its k-th valid template; only the first carries action and control |
| AclConfig.FirstShowsAction | RTL8370MB/API/acl.c:992-994 | cfg_get on the first slot decodes exactly the merged action, on the others none |
| AclConfig.GetAfterAdd | RTL8370MB/API/acl.c:972-1326 | on the table a successful cfg_add leaves, cfg_get at the same index shows exactly the merged action |
| AclConfig.RuleAfterAdd | RTL8370MB/API/acl.c:972-1126 | what cfg_get reads in slot k after cfg_add: template number, words, flags and validity of the k-th valid template as far as cared for; the whole rule iff not all three highest ports are set and cared for |
| AclConfig.SlotAfterAdd | RTL8370MB/API/acl.c:972-1126 | the same in terms of the filter: words, flags and ports as given to cfg_add, as far as cared for |
| AclConfig.ActivePortsComeBack | RTL8370MB/API/acl.c:1081-1087 | the active ports come back as far as they are cared for, and their mask, unless all three highest ports are set and cared for |
| AclConfig.ReportAfterAdd | RTL8370MB/API/acl.c:1049-1336 | the whole report on a slot for which cfg_get stays inside its table: rule, ports, flags, inversion, field types, and the action on the first slot alone |
| AclPackets.PassesExact | RTL8370MB/API/acl.c:972-998 | a packet passes the slots of a filter iff it matches the rules they were made from |
| AclPackets.StoredFilterMeans | RTL8370MB/API/acl.c:515-998 | a packet passes the slots that cfg_add fills iff it agrees with every field of the filter |
| AclConfig.GetLeavesTable | RTL8370MB/API/acl.c:1101-1116 | on slot k after cfg_add, cfg_get looks up the advanced masks outside its table iff the k-th valid template takes advanced packet types |
| AclConfig.EmptyFilter | RTL8370MB/API/acl.c:602-616 | a filter needs no rule iff it has neither field nor advanced packet type, and the unsigned range check then refuses it for slot 0 alone |
| AclConfig.Table.AllFree | RTL8370MB/API/acl.c:961-970 | the scan for free slots |
| AclConfig.Table.WriteRules | RTL8370MB/API/acl.c:972-998 | exactly the consecutive slots from the given one change, to the valid templates in order |
| AclConfig.Table.AddRules | RTL8370MB/API/acl.c:614-1001 | all-or-nothing: succeeds iff index, ports, inversion, actions and free slots allow it, complains of the index iff the unsigned range check fails; an error leaves every slot as it was |
| AclConfig.Table.CfgAdd | RTL8370MB/API/acl.c:515-1001 | the same from the linked field list on, with the rule count reported once it is known, and an exact report of lists that are not defined in C |
| AclConfig.Table.CfgGet | RTL8370MB/API/acl.c:1049-1336 | reports raw rule, logical ports, tag flags, advanced values and masks, action, inversion and field types of a valid slot, nothing of a free one; overruns iff it looks up the type of the rule, or the care bits of the type of a template with advanced packet types, outside five rows |
| Words.OnesAnd | HAL/stmflash.c:124-133 | an erased word takes any value exactly |
| Flash.SectorSpans | HAL/stmflash.c:9-28 | the sector lookup is right for every flash address |
| Flash.Chip.EraseSectorOnce | HAL/stmflash.c:67-78 | erases unless the sector is marked, and marks it |
| Flash.Chip.Program | HAL/stmflash.c:122-134 | programming only clears bits, and remembers whether a word was not erased before |
| Flash.Chip.WriteBytes | HAL/stmflash.c:93-140 | bad lengths and addresses change nothing; otherwise one erase at most, then the buffer; ranges outside the main flash are reported |
| Flash.Chip.ResetMark | HAL/stmflash.c:56-60 | clears the mark of the address's sector only |
| Flash.StoresExactly | HAL/stmflash.c:93-140 | the buffer is stored exactly iff every word outside the erased sector can take it |
| PowerupStore.XorSeesChange | HAL/powerupOption.cpp:13-21 | the check changes with every change of a single word |
| PowerupStore.Store.CheckFunc | HAL/powerupOption.cpp:13-21 | the loop computes the exclusive-or |
| PowerupStore.Store.VerifyField | HAL/powerupOption.cpp:23-33 | true iff the count is plausible and the check word matches |
| PowerupStore.OtherCount | HAL/powerupOption.cpp:23-33 | a freshly written field under another count verifies in exactly the listed cases |
| PowerupStore.Store.Write | HAL/powerupOption.cpp:40-61 | refines the step on the whole field, for every stored count; the written variable reads back, all others are unchanged, every word went onto erased flash, the erase mark is clear again; the shadow array is overrun iff a needed write meets a count above VarNum |
| PowerupStore.WriteVerifies | HAL/powerupOption.cpp:40-61 | after a rewrite the field verifies iff the count it then shows is one of the listed cases, whatever count was stored or written |
| PowerupStore.Store.InitInApp | HAL/powerupOption.cpp:63-108 | afterwards the field verifies with VarNum variables: those below the stored count as they were, the others from the defaults, the count set; the shadow array is overrun iff the stored count is 13 to 256 |
| PowerupStore.DefaultExact | HAL/powerupOption.cpp:75-88 | variable i gets its default, whatever the field holds, iff the stored count is at most i |
| PowerupStore.ErasedGetsNoDefault | HAL/powerupOption.cpp:75-88 | on erased flash every variable stays 0xFFFFFFFF, which is nobody's default |
| PowerupStore.BootSettles | HAL/powerupOption.cpp:63-108 | a boot on any field ends with VarNum verified variables, unless the stored count is 13 to 256 |
| PowerupStore.BootKeeps | HAL/powerupOption.cpp:74-80 | after a boot each variable but the count is what it was if the stored count reaches that far, and its default if not |
| PowerupStore.Store.Run | HAL/powerupOption.cpp:40-108 | any run of boots and writes refines the steps on the field, up to the first that overruns the shadow array, which is reported exactly |
| PowerupStore.RunStaysSettled | HAL/powerupOption.cpp:40-108 | from a settled field, any run that writes no count but VarNum overruns nothing, keeps the field verified and holds the variables of the abstract run |
| PowerupStore.LastWriteWins | HAL/powerupOption.cpp:40-61 | in such a run a variable holds the last value written to it |
| PowerupStore.NeverWritten | HAL/powerupOption.cpp:40-61 | and its first value if none was |
| MulticastTable.AddressComesBack | RTL8370MB/API/l2.c:1775-1803 | group addresses survive their two registers |
| MulticastTable.RepliesExact | RTL8370MB/API/l2.c:1748-1880 | when each operation succeeds and what it does then: an add iff group and ports are valid and the key is present or fewer than 64 are, delete and get iff the key is present |
| MulticastTable.SizeIsUse | RTL8370MB/API/l2.c:1775-1800 | with unique keys the map is as large as the number of used slots |
| MulticastTable.PutSets | RTL8370MB/API/l2.c:1780-1801 | filling a slot sets one key and keeps keys unique |
| MulticastTable.ClearRemoves | RTL8370MB/API/l2.c:1829-1838 | clearing a slot removes its key and no other |
| MulticastTable.Table.Find | RTL8370MB/API/l2.c:1775-1797 | the scan finds the key iff the map has it, and a free slot iff the map has room |
| MulticastTable.Table.AddEntry | RTL8370MB/API/l2.c:1748-1804 | updates or inserts; reports full only when the key is absent and 64 keys are stored |
| MulticastTable.Table.DelEntry | RTL8370MB/API/l2.c:1806-1842 | removes exactly its key, fails iff it is absent |
| MulticastTable.Table.GetEntry | RTL8370MB/API/l2.c:1844-1880 | returns the mask of the key |
| MulticastTable.Table.Replay | RTL8370MB/API/l2.c:1748-1880 | any run of operations answers like a finite map with room for 64 keys |
| MulticastTable.GetReturnsLastAdd | RTL8370MB/API/l2.c:1748-1880 | get returns the ports of the last add, whatever happened to other groups |
| MulticastTable.DelForgets | RTL8370MB/API/l2.c:1748-1880 | after a delete the group is gone |
| TickClock.ExactWhen | HAL/Timer.h:24-33 | with at most one interrupt between the reads the result is exact iff the late-read guess is right and the counter has not wrapped |
| TickClock.ShortSpan | HAL/Timer.h:24-33 | in less than half a period there is at most one interrupt and the guess is right |
| TickClock.HalfIsTooLong | HAL/Timer.h:24-33 | half a period, rounded up, is already too long |
| TickClock.TimeMonotone | HAL/Timer.h:24-33 | exact times never go backwards |
| TickClock.Clock.Tick | HAL/Timer.cpp:50-55 | counter and register stay those of the elapsed ticks |
| TickClock.Clock.TickVal | HAL/Timer.h:54 | ticks since the last reload |
| TickClock.Clock.GetTimeNs | HAL/Timer.h:24-33 | for any timing within half a period: the time at the register read, iff the counter has not wrapped |
| TickClock.Clock.ReadTwice | HAL/Timer.h:24-33 | successive calls below the wrap are ordered |
| TickClock.ElapsedExact | HAL/Timer.h:82-96 | the timer's wrapped difference is the elapsed time iff that is below 2^31 |
| BaudRate.AccurateExact | HAL/CUsart.cpp:399-426 | the divider error lies within (-(samples + 49), 50] hundredths of a cycle per bit iff rounding does not carry |
| BaudRate.Divider | HAL/CUsart.cpp:399-426 | the register value as computed in 32 bits; it has that accuracy whenever neither product wraps and it fits sixteen bits |

## Left out

- RttRing.UpRing.WriteBlocking: termination without host progress is not promised by the code; the run is observed up to `patience` stalls.
- RttOverwrite.WriteWithOverwriteNoLock: no host runs beside it, because both sides would move the same offset.
- RingQueue.RingQueue.PushArray: elements are one byte wide, since the bulk operations copy byte counts; wider elements are copied only in part by the original.
- CanConsole.CanRouter.PutMsg: the user hook that may rewrite a frame is the default one; receive side, initialisation and error callbacks are not modelled.
- CanConsole.Console.RunTransmitter: a device that is null or still closed returns without effect and is not modelled.
- AclConfig.Table.CfgAdd: the 21 packet-type flags arrive as value and mask bits; collecting them from the flag structures is not modelled, nor are null pointers and driver errors. The VLAN tables may gain members even when the call fails later; only the rule table is claimed unchanged.
- AclConfig.Table.CfgGet: null pointers and driver errors, and port masks that have no logical form, are not modelled.
- FormatWriter.FormatBounded: a `size` beyond the buffer is excluded. `CConsole::printf`, which passes 512 for a buffer of 128, calls the `vsnprintf` of the C library, which is not part of this model.
- Flash.Chip.WriteBytes: the one-time-programmable area and other addresses outside the main flash are reported but not modelled; flash operations do not fail.
- TickClock.Clock.Tick: the interrupt follows the reload at once; a masked interrupt is not modelled.
- The `cfg_del` functions, template and range configuration of the ACL, and the unmatch actions: single writes.
- The `next_get` loops over multicast entries: they depend on hardware lookup.
- RTT initialisation and re-initialisation, the locking wrappers, UDP and UART console back ends, sockets, network adapters, SPI, DMA, ADC and GPIO set-up: plumbing without state worth proving.
- The RSA and UID check: it rests on a library that is not part of this model.
