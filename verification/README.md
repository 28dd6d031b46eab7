# Proofs about the libraries of a Raspberry Pi operating system

This project models the parts of the repository that are algorithms and protocols rather than register
access, and proves what they are for. The main results hold for all inputs, all runs, or all
interleavings.

| files | what they are about |
|---|---|
| `OneWireRom`, `OneWireSearch`, `OneWireDriver` | the 1-Wire search: a walk down the trie of the attached 64-bit addresses, resumed from the last discrepancy |
| `CrcRegister`, `OneWireCrc8`, `OneWireCrc16`, `Bytes` | its check sums: table and parity tricks against the shift register, and what they detect |
| `PtrList`, `KernelTimerSpec`, `KernelTimer` | kernel timers: an ordered list of 32-bit deadlines, polled while its handlers insert into it |
| `ScreenSpec`, `ScreenCommands`, `ScreenMeaning`, `ScreenPixels`, `ScreenDevice` | the text terminal: an escape sequence automaton that draws into a frame buffer |
| `HeapSpec`, `Heap`, `HeapData` | the heap: bump pointers, free lists threaded through the blocks, pages |
| `SoundSpec`, `SoundDevice`, `I2SSoundSpec`, `I2SSoundDevice` | the audio path: a ring of converted samples, and two DMA buffers filled in turn |
| `Ring`, `SerialSpec`, `SerialDevice` | the serial port: two queues shared with the interrupt handler |
| `PropertiesSpec`, `PropertyLines`, `PropertiesFile`, `PropertyValues` | the properties file: reading, writing, and round trips, also of numbers and IP addresses |
| `Numerals`, `NumberText`, `NumberReading`, `StandardNumbers`, `Dividers` | numbers as text, in both libraries, and the software dividers |
| `Calendar` | dates and times |
| `LcdSpec`, `LcdMeaning`, `LcdDisplay` | the character display: a buffer, and the controller it mirrors |
| `SerialUpload` | receiving a file over the serial line |
| `Words` | bytes, 32-bit words and strings with a terminator, for the others |

A module named after a driver holds classes with the driver's fields, whose methods are proved to compute
a function of the old state; the `Spec` modules define these functions on values and prove what follows
from them. What each function means is stated without it, too: in the rows and columns of a screen, the numbers
that bytes stand for, the requests that are granted. `dafny verify dfyconfig.toml` checks everything.

## What the proofs found

Where a promise holds only under a condition, the condition is proved to be the exact one.

- A 1-Wire device whose family code is zero makes every search fail, because a first byte of zero is
  taken for a failure (`OneWire.cpp:462`). Without one the search is complete.
- A `malloc` of more than 2^32-16 bytes escapes the test for having wrapped and gets a block without
  room for data as soon as a bare header fits (`alloc.cpp:141-145`). Where a failing call returns, the first one
  gives up the reserve, so that the same request may succeed when repeated. `palloc` moves its page
  pointer on even when it fails (`alloc.cpp:290-299`); only after about a million failing calls would it come round.
- An I2S transfer that is cancelled before its second buffer is filled, and whose second fetch is empty,
  plays the old contents of that buffer: the end of the chain is marked only in the running state
  (`i2ssoundbasedevice.cpp:265-279`).
- A serial write that finds room for a line feed but not for its carriage return has queued the line
  feed without counting it (`serial.cpp:206-222`); a caller that writes the rest again doubles it. It happens
  where the bytes in front of the line feed fill the queue but for one place.
- The most negative sample of any format is converted to one below the minimum that
  `GetRangeMin` reports for signed 24 bits (`soundbasedevice.cpp:45-49` and `243-303`).
- `Load` does not reset the automaton after a failed load (`propertiesfile.cpp:47-86`).
- The uptime gains four ticks whenever the tick count wraps, 2^32 being no multiple of 100
  (`timer.cpp:524-528`). It is the number of whole seconds exactly where the ticks into the current second are at
  least four for every wrap: not at the first wrap, again four ticks later, and never from the twenty-fifth wrap on.
- A number above 99 (above 199 as the second one) ends an escape sequence at once, and the rest of the
  sequence appears on the screen (`screen.cpp:398-413` and `454-469`).
- The C library's `div` shifts its divisor up in 32 bits (`stdlib.cpp:97-100`). Unless the operands are equal, it
  answers the quotient exactly where that takes the divisor past the dividend before it wraps around, which it
  does for every dividend below 2^31; otherwise the loop does not end, or the answer is too large.
  `itoa` of a negative number in a base other than 10 may run into it; in base 2, 4, 8, 16 or 32 it never ends.
- `strtoul` notices an overflow only where the value drops from one digit to the next in 32 bits (`util.cpp:395-414`). A
  number out of range comes out as 2^32-1 exactly there, or by chance; 6000000000 is read as 1705032704.
- `strtoul` takes the characters from `:` to `@` for digits in bases above ten (`util.cpp:372-395`).
- `__DivideInteger` truncates except for the least number divided by -1 (`libhelper.cpp:66-90`).
- On a character display with more than two rows and more than 32 columns two places share an address
  (`hd44780device.cpp:578-604`); with more than two rows and more than 20 columns some addresses lie between or
  behind the two lines of forty that a controller has.

## Assumptions

- 1-Wire: the devices attached do not change between calls; pulses and their timing are taken as given.
- Timers: delays are from 1 to 2^31-1 ticks; handlers start timers but do not cancel any, since a poll
  keeps its next element across the call.
- Screen: the width is a multiple of 8 and there is room for one row of 19 lines. Where it is not a
  multiple, going left from the first column ends between two columns.
- Heap: the base is a multiple of 16, and callers give back only what they have.
- I2S: an interrupt is serviced before the running block ends, and the second buffer is filled before
  the first has been played.
- Dates: times before 1970 are not set. Display: at most two rows or at most 32 columns; the
  controller is in 4-bit mode. Upload: the file, without its frames, fits into memory.
- Serial: a section under the spin lock is one step. Properties: files are read and written as exact
  sequences of characters.

## Model

| member | source | states |
|---|---|---|
| OneWireSearch.SearchEnumerates | lib/CircleLib/addon/OneWire/OneWire.cpp:313-471 | from a reset search state, for every finite device set: call `n`, for every `n`, returns what the endless round "every device once in increasing bit order, then one FALSE" prescribes, if and only if no device has an all-zero family code |
| OneWireSearch.ZeroFamilyBlocks | lib/CircleLib/addon/OneWire/OneWire.cpp:462-469 | the other half made concrete: with an all-zero family code on the bus no call ever finds anything |
| OneWireSearch.FirstCallFindsLeast | lib/CircleLib/addon/OneWire/OneWire.cpp:355-471 | the first call after a reset of the search finds the least device |
| OneWireSearch.NextCallFindsSuccessor | lib/CircleLib/addon/OneWire/OneWire.cpp:355-471 | a later call finds the next greater device: the remembered discrepancy is the deepest place where the last path can turn upwards |
| OneWireSearch.TargetSearchFindsFamily | lib/CircleLib/addon/OneWire/OneWire.cpp:328-340 | the call after `target_search` finds a device of the wanted family if and only if there is one and the code is not zero |
| OneWireSearch.StepStaysOnCourse | lib/CircleLib/addon/OneWire/OneWire.cpp:380-452 | one turn of the bit loop keeps the listening devices equal to those that share the bits written so far, and the last zero taken equal to the last place where a device branches off upwards |
| OneWireRom.EnumerationExists | lib/CircleLib/addon/OneWire/OneWire.cpp:313-471 | every finite device set has an increasing listing, so that the enumeration theorem speaks about every bus |
| OneWireRom.EnumerationIsUnique | lib/CircleLib/addon/OneWire/OneWire.cpp:313-471 | and no other one, so that the round is determined by the devices |
| OneWireDriver.Bus.ReadBit | lib/CircleLib/addon/OneWire/OneWire.cpp:210-228 | two reads give the wired-AND of the listening devices' bits and of their complements |
| OneWireDriver.Bus.WriteBit | lib/CircleLib/addon/OneWire/OneWire.cpp:180-200 | a written bit silences the devices that have the other one |
| OneWireDriver.OneWire.Search | lib/CircleLib/addon/OneWire/OneWire.cpp:355-471 | the method over `ROM_NO`, `LastDiscrepancy` and `LastDeviceFlag` computes exactly the specified call, and copies the address out |
| OneWireDriver.OneWire.ResetSearch | lib/CircleLib/addon/OneWire/OneWire.cpp:313-323 | all search fields are cleared |
| OneWireDriver.OneWire.TargetSearch | lib/CircleLib/addon/OneWire/OneWire.cpp:328-340 | the address becomes the family code and seven zero bytes, and the counters are those of a search for it |
| OneWireDriver.TargetedByCode | lib/CircleLib/addon/OneWire/OneWire.cpp:328-340 | in bytes: the next search finds an address whose first byte is the code asked for if and only if a device has one and the code is not zero |
| OneWireDriver.FamilyIsFirstByte | lib/CircleLib/addon/OneWire/OneWire.cpp:331-333 | an address is of a family exactly if its first byte is the family code |
| OneWireDriver.BytesInOrder | lib/CircleLib/addon/OneWire/OneWire.cpp:417-432 | the 64 bits of an address are those of its eight bytes in order, the lowest bit of each first |
| OneWireSearch.FamilyIsRemembered | lib/CircleLib/addon/OneWire/OneWire.cpp:411-420 | the last discrepancy within the first eight bits is remembered, or nothing new is |
| OneWireSearch.NothingFound | lib/CircleLib/addon/OneWire/OneWire.cpp:368-471 | a call that finds nothing clears the counters; one behind the last device, or without an answer to the reset, leaves the address alone |
| OneWireDriver.OneWire.Turn | lib/CircleLib/addon/OneWire/OneWire.cpp:380-452 | the body of the loop, with its byte index and shifting mask, is one step of the walk over 64 bits |
| OneWireDriver.BitWritten | lib/CircleLib/addon/OneWire/OneWire.cpp:428-432 | setting or clearing the masked bit of one byte changes just that bit of the address |
| CrcRegister.Register.CrcIsSerial | lib/CircleLib/addon/OneWire/OneWire.cpp:508-567 | the byte-wise check value is the state of the shift register that has seen the bits one by one |
| CrcRegister.Register.DetectsBursts | lib/CircleLib/addon/OneWire/OneWire.cpp:508-567 | a register that tells `width` bits apart detects every error burst of up to `width` bits in messages of any length |
| CrcRegister.Register.EightBitsTell | lib/CircleLib/addon/OneWire/OneWire.cpp:508-567 | every lawful register tells eight bits apart |
| OneWireCrc8.Crc8ByTable | lib/CircleLib/addon/OneWire/OneWire.cpp:483-515 | the table loop computes the check byte, for messages of every length |
| OneWireCrc8.Crc8ByBits | lib/CircleLib/addon/OneWire/OneWire.cpp:522-536 | so does the bit loop |
| OneWireCrc8.TableIsShifts | lib/CircleLib/addon/OneWire/OneWire.cpp:483-499 | every entry of the table is eight shifts of the register |
| OneWireCrc8.AppendedCrc8 | lib/CircleLib/addon/OneWire/OneWire.cpp:508-536 | a message followed by a byte checks to 0 exactly if that byte is its check byte |
| OneWireCrc8.Crc8DetectsBursts | lib/CircleLib/addon/OneWire/OneWire.cpp:508-536 | two messages of equal length that differ only within eight consecutive bits never share a check byte |
| OneWireCrc8.Crc8DetectsWrongByte | lib/CircleLib/addon/OneWire/OneWire.cpp:508-536 | nor do two that differ in exactly one byte |
| OneWireCrc8.KnownCheck8 | lib/CircleLib/addon/OneWire/OneWire.cpp:508-536 | the check byte of the ASCII digits 1 to 9 is 0xA1 |
| OneWireCrc16.Crc16ByParity | lib/CircleLib/addon/OneWire/OneWire.cpp:546-567 | the parity-trick loop computes the check value of the shift register with feedback 0xA001 |
| OneWireCrc16.TrickIsShifts | lib/CircleLib/addon/OneWire/OneWire.cpp:551-566 | the trick on one byte is eight shifts |
| OneWireCrc16.CheckCrc16 | lib/CircleLib/addon/OneWire/OneWire.cpp:540-544 | the check succeeds exactly if the two bytes are the inverted check value, low byte first |
| OneWireCrc16.Crc16DetectsBursts | lib/CircleLib/addon/OneWire/OneWire.cpp:546-567 | two messages of equal length, of one byte or more, that differ only within sixteen consecutive bits never share a check value |
| OneWireCrc16.Crc16DetectsWrongByte | lib/CircleLib/addon/OneWire/OneWire.cpp:546-567 | nor do two that differ in exactly one byte |
| OneWireCrc16.ResidueMeansIntact | lib/CircleLib/addon/OneWire/OneWire.cpp:540-567 | a message followed by two bytes leaves the fixed residue exactly if they are its check bytes |
| OneWireCrc16.AppendedCrc16 | lib/CircleLib/addon/OneWire/OneWire.cpp:546-567 | a message followed by two bytes checks to 0 exactly if they are its check value, low byte first |
| OneWireCrc16.KnownCheck16 | lib/CircleLib/addon/OneWire/OneWire.cpp:546-567 | the check value of the ASCII digits 1 to 9 is 0xBB3D |
| OneWireCrc16.CheckBytesAre | lib/CircleLib/addon/OneWire/OneWire.cpp:540-544 | what is compared: the two bytes of the check value, low byte first, every bit inverted |
| PtrList.PtrList.InsertBefore | lib/CircleLib/lib/ptrlist.cpp:66-102 | the element goes in front of the given one, by rewiring the pointers in place |
| PtrList.PtrList.InsertAfter | lib/CircleLib/lib/ptrlist.cpp:104-139 | behind the given one, or first in an empty list |
| PtrList.PtrList.Remove | lib/CircleLib/lib/ptrlist.cpp:141-173 | the element leaves the list, the others keep their order |
| PtrList.PtrList.Find | lib/CircleLib/lib/ptrlist.cpp:175-188 | the first element that holds the pointer, or none exactly if none does |
| KernelTimerSpec.EveryTimerOnTime | lib/CircleLib/lib/timer.cpp:388-538 | in every run of starts, cancels and ticks, with handlers that start timers during the poll: a timer that was not cancelled has been called exactly once if its tick has come, on that tick, and not at all before |
| KernelTimerSpec.UncancelledTimerFires | lib/CircleLib/lib/timer.cpp:388-498 | a timer started at tick t with delay d and never cancelled is called exactly once, at t+d, across any number of wraps of the 32-bit count |
| KernelTimerSpec.CancelledTimerNeverFires | lib/CircleLib/lib/timer.cpp:440-461 | a timer cancelled before its tick is never called |
| KernelTimerSpec.LateCancelIsIgnored | lib/CircleLib/lib/timer.cpp:440-461 | a cancel that comes after the tick changes nothing |
| KernelTimerSpec.RunKeeps | lib/CircleLib/lib/timer.cpp:388-538 | in every run the list is ordered by tick and, for equal ticks, by start; the calls made are ordered the same way; no timer is lost |
| KernelTimerSpec.PollSettles | lib/CircleLib/lib/timer.cpp:463-498 | after a poll nothing that has elapsed is left in the list |
| KernelTimer.SignedAfterIsAfter | lib/CircleLib/lib/timer.cpp:417 | the signed 32-bit difference orders deadlines as the unbounded ticks are ordered as long as these are less than 2^31 apart |
| KernelTimer.Timers.StartKernelTimer | lib/CircleLib/lib/timer.cpp:388-438 | the walk and the insertion put the timer at its place |
| KernelTimer.Timers.CancelKernelTimer | lib/CircleLib/lib/timer.cpp:440-461 | the timer is taken off the list if it is there |
| KernelTimer.Timers.PollKernelTimers | lib/CircleLib/lib/timer.cpp:463-498 | the loop, which keeps the next element across the call of a handler that inserts into the list, makes exactly the specified calls, with the arguments of the timer taken off the list |
| KernelTimerSpec.HandlerIsCalled | lib/CircleLib/lib/timer.cpp:480-490 | what a handler sees, of any run: its own handler, parameter and context, once, with the 32-bit tick count its timer waited for |
| KernelTimerSpec.PollStarts | lib/CircleLib/lib/timer.cpp:480-490 | every handler called gets all the starts it asks for, in order; nothing else is started, and no call is taken back |
| KernelTimerSpec.NowIsTicks | lib/CircleLib/lib/timer.cpp:500-538 | the tick count of a run is the number of its ticks |
| KernelTimer.Timers.InterruptHandler | lib/CircleLib/lib/timer.cpp:500-538 | one tick: the counts are advanced and the timers polled |
| KernelTimer.UptimeFormula | lib/CircleLib/lib/timer.cpp:524-528 | the uptime in closed form: every round of the tick count is counted as 42949673 seconds, which are four ticks more |
| KernelTimer.UptimeAhead | lib/CircleLib/lib/timer.cpp:524-528 | by how many seconds it is ahead, at every tick |
| KernelTimer.UptimeRightIff | lib/CircleLib/lib/timer.cpp:524-528 | the uptime is the number of whole seconds if and only if the ticks into the current second of the count are at least four for every wrap |
| KernelTimer.UptimeAroundWraps | lib/CircleLib/lib/timer.cpp:524-528 | so it is right before the first wrap, one second ahead at it and right again four ticks later, and never right from the twenty-fifth wrap on |
| ScreenDevice.Screen.Write | lib/CircleLib/lib/screen.cpp:206-233 | for every byte string: afterwards the frame buffer shows the grid of characters stepped by the bytes, with the cursor drawn exactly if it is on |
| ScreenDevice.Screen.constructor | lib/CircleLib/lib/screen.cpp:72-125 | whatever was in the frame buffer, it then shows the empty grid with the cursor in the upper left corner |
| ScreenDevice.Screen.WriteByte | lib/CircleLib/lib/screen.cpp:235-508 | one byte, in every state of the automaton: the pixels follow the grid |
| ScreenDevice.Screen.Scroll | lib/CircleLib/lib/screen.cpp:724-748 | copying the lines down the buffer, the first pixel first although the parts overlap, and blackening the rest is the scrolled picture |
| ScreenDevice.Screen.CursorMove | lib/CircleLib/lib/screen.cpp:572-584 | row and column 0 wrap around in unsigned arithmetic and are ignored |
| ScreenDevice.Screen.SetScrollRegion | lib/CircleLib/lib/screen.cpp:672-687 | a region is taken if it is not empty and on the screen; the cursor goes home in any case |
| ScreenDevice.Screen.Tabulator | lib/CircleLib/lib/screen.cpp:713-722 | the next multiple of eight columns, or a new line |
| ScreenDevice.Screen.InvertCursorPixels | lib/CircleLib/lib/screen.cpp:773-794 | the underline pixels of the cursor's cell are inverted and no others |
| ScreenPixels.ScrollShows | lib/CircleLib/lib/screen.cpp:724-748 | the scrolled picture shows the scrolled grid: only the region moves, and its last row becomes blank |
| ScreenPixels.EveryVisiblePixel | lib/CircleLib/lib/screen.cpp:796-803 | what is shown, in plain coordinates: every pixel of the text area has the colour that the cell at its place prescribes |
| ScreenDevice.Screen.WhatIsSeen | lib/CircleLib/lib/screen.cpp:750-803 | the same for the buffer after every write, down to the bits of the font: the cursor's underline in the pen's colour, the characters in theirs, and black |
| ScreenPixels.UnderlineIsCursor | lib/CircleLib/lib/chargenerator.cpp:66-94 | the only underline pixels that are lit are the cursor's |
| ScreenPixels.InvertHidesCursor | lib/CircleLib/lib/screen.cpp:206-233 | inverting once more hides the cursor even if the pen has another colour by then |
| ScreenPixels.SpotsDiffer | lib/CircleLib/lib/screen.cpp:796-803 | different pixels of the text area are stored in different places |
| ScreenSpec.StepKeepsGood | lib/CircleLib/lib/screen.cpp:235-508 | after every byte the cursor is in the scroll region and on the grid, the region is not empty, and the grid has its size |
| ScreenSpec.PlainTextStaysInside | lib/CircleLib/lib/screen.cpp:510-553 | text without escape sequences never changes a row outside the scroll region, however often it scrolls |
| ScreenSpec.PrintedTextLands | lib/CircleLib/lib/screen.cpp:611-621 | printable text that stays in its line lands in the cells from the cursor on, and changes nothing else |
| ScreenSpec.RunAppend | lib/CircleLib/lib/screen.cpp:206-233 | it makes no difference how a text is split into writes |
| ScreenCommands.CommandActs | lib/CircleLib/lib/screen.cpp:235-508 | every command of the supported subset of ECMA-48 section 8.3 (CUU, CUD, CUF, CUB, CUP, ED, EL, ECH) and the private ones is read as the operation it names, however its numbers are spelt, and leaves the automaton ready; what the operations do to the screen is stated further down |
| ScreenCommands.CommandStream | lib/CircleLib/lib/screen.cpp:235-508 | a stream of commands and characters is understood one by one |
| ScreenCommands.ReadDigits | lib/CircleLib/lib/screen.cpp:398-413 | a number of any length, leading zeros included, is read as its value while that is in range |
| ScreenCommands.OutOfRangeIsShown | lib/CircleLib/lib/screen.cpp:398-413 | a first number above 99 ends the sequence, whether a semicolon or a final byte comes behind it: the bytes behind the digit that takes it out of range are shown as text |
| ScreenCommands.SecondOutOfRangeIsShown | lib/CircleLib/lib/screen.cpp:454-469 | so does a second number above 199 |
| ScreenCommands.PrivateOutOfRangeIsShown | lib/CircleLib/lib/screen.cpp:485-500 | and a number above 99 behind a question mark |
| ScreenMeaning.LineFeed | lib/CircleLib/lib/screen.cpp:539-548 | a line feed: the first column of the next row; in the last row of the region every row of the region moves up by one, and the last one is blank |
| ScreenMeaning.Backspace | lib/CircleLib/lib/screen.cpp:556-570 | to the left; from the first column, to the end of the row above if the region has one |
| ScreenMeaning.Return | lib/CircleLib/lib/screen.cpp:510-513 | to the first column |
| ScreenMeaning.Tab | lib/CircleLib/lib/screen.cpp:713-722 | to the next column that is a multiple of eight, or to a new line |
| ScreenMeaning.Printable | lib/CircleLib/lib/screen.cpp:611-621 | the character is put where the cursor is, in the pen's colour; the cursor goes on |
| ScreenMeaning.OtherControl | lib/CircleLib/lib/screen.cpp:239-266 | the other control characters do nothing |
| ScreenMeaning.UpAndDown | lib/CircleLib/lib/screen.cpp:539-548 | CUU and CUD: up within the region; down, scrolling in its last row |
| ScreenMeaning.ForwardAndBack | lib/CircleLib/lib/screen.cpp:556-593 | CUF and CUB |
| ScreenMeaning.Home | lib/CircleLib/lib/screen.cpp:550-554 | CUP without numbers: the upper left corner of the region |
| ScreenMeaning.EraseInDisplay | lib/CircleLib/lib/screen.cpp:515-529 | ED: every cell from the cursor on, in its row and in all rows below, is blank; every other one stays |
| ScreenMeaning.EraseInLine | lib/CircleLib/lib/screen.cpp:531-537 | EL: every cell from the cursor to the end of its row |
| ScreenMeaning.EraseSome | lib/CircleLib/lib/screen.cpp:623-640 | ECH: as many cells as the number says, but not beyond the row |
| ScreenMeaning.Position | lib/CircleLib/lib/screen.cpp:572-584 | CUP: line and column count from one; ignored if the place is not in the region |
| ScreenMeaning.Region | lib/CircleLib/lib/screen.cpp:672-688 | the scroll region: from the first line to the last, both counted from one |
| ScreenMeaning.PenColors | lib/CircleLib/lib/screen.cpp:690-711 | the four numbers that change the pen, and the colours they stand for |
| ScreenMeaning.InsertMode | lib/CircleLib/lib/screen.cpp:646-649 | insert mode is kept, and has no other effect |
| ScreenMeaning.CursorShown | lib/CircleLib/lib/screen.cpp:473-504 | ESC [ ? n h and l: the cursor if the number is 25, and nothing otherwise |
| ScreenMeaning.NumberMissing | lib/CircleLib/lib/screen.cpp:417-439 | where a number must come behind a semicolon or a question mark, any other byte ends the sequence |
| ScreenMeaning.UnknownSequence | lib/CircleLib/lib/screen.cpp:268-355 | any other byte ends a sequence and does nothing |
| ScreenMeaning.UnknownWithNumbers | lib/CircleLib/lib/screen.cpp:357-471 | also behind one or two numbers |
| ScreenMeaning.NumberIs | lib/CircleLib/lib/screen.cpp:398-413 | digits are decimal, the highest one first |
| HeapSpec.EveryRunInOrder | lib/CircleLib/lib/alloc.cpp:83-328 | after any sequence of malloc, free, realloc, palloc and pfree, with sizes up to 2^32-16 and so few failing pallocs that they do not drive the page pointer from its limit through the rest of the address space: the blocks tile the heap from its base to the bump pointer, each free list holds exactly the freed blocks of its size, each once, pages are aligned, distinct and apart from the blocks |
| HeapSpec.RunInOrderIff | lib/CircleLib/lib/alloc.cpp:83-328 | for every size and any number of calls: a run keeps the memory in order all the time if and only if no request is for more than 2^32-16 bytes while a bare header still fits, and no palloc finds no free page with the page pointer at the end of the address space |
| HeapSpec.MallocKeepsGood | lib/CircleLib/lib/alloc.cpp:107-179 | a request keeps the heap in order if and only if it is for at most 2^32-16 bytes, or not even a header fits in front of the limit |
| HeapSpec.OversizedGranted | lib/CircleLib/lib/alloc.cpp:141-144 | a request for more escapes the test for having wrapped: it is granted if and only if a bare header fits |
| HeapSpec.OversizedBlock | lib/CircleLib/lib/alloc.cpp:141-144 | and then the heap is no longer in order |
| HeapSpec.FirstRequestBreaks | lib/CircleLib/lib/alloc.cpp:141-144 | a concrete case: the first request a fresh heap gets |
| HeapSpec.MallocGives | lib/CircleLib/lib/alloc.cpp:107-179 | a block given out is aligned, big enough and was not in use, and all other blocks stay as they are |
| HeapSpec.MallocGrantedIff | lib/CircleLib/lib/alloc.cpp:107-179 | a request is granted if and only if a block of its bucket has been freed, or what it is rounded to fits in front of the limit less the reserve |
| HeapSpec.MallocCarves | lib/CircleLib/lib/alloc.cpp:137-178 | a new block begins where the last one ends |
| HeapSpec.RoundedIs | lib/CircleLib/lib/alloc.cpp:113-130 | a request is rounded to the least of the seven bucket sizes that holds it, or not at all if none does |
| HeapSpec.SpanIs | lib/CircleLib/lib/alloc.cpp:142-143 | a block takes a header of sixteen bytes, and its size rounded up to a multiple of sixteen |
| HeapSpec.ReleaseIs | lib/CircleLib/lib/alloc.cpp:181-214 | a block given back is no longer in use; everything else stays, but for the list of its size |
| HeapSpec.SecondTry | lib/CircleLib/lib/alloc.cpp:144-163 | a request that failed succeeds when it is repeated exactly if it fits into the reserve |
| HeapSpec.FreeThenMalloc | lib/CircleLib/lib/alloc.cpp:107-214 | a request of the right bucket gets the block freed last, and takes the heap back to where it was |
| HeapSpec.ReuseThenFree | lib/CircleLib/lib/alloc.cpp:107-214 | freeing a block that came from a list takes the heap back to where it was |
| HeapSpec.EveryAddressIsInABlock | lib/CircleLib/lib/alloc.cpp:107-179 | every address of the used part lies in a block |
| HeapSpec.BlocksAreApart | lib/CircleLib/lib/alloc.cpp:107-179 | and in only one: blocks do not overlap |
| HeapSpec.DataApart | lib/CircleLib/lib/alloc.cpp:107-179 | the data of a block ends before the header of the next one begins |
| HeapSpec.ReallocKeepsGood | lib/CircleLib/lib/alloc.cpp:234-266 | resizing keeps the heap in order in all its cases, under the same exact condition as a request |
| HeapSpec.ReallocGrantedIff | lib/CircleLib/lib/alloc.cpp:234-266 | resizing is granted if and only if the block is big enough or a request for the new size is granted; the old block is given back exactly then, and when the new size is 0 |
| HeapSpec.PallocKeepsGood | lib/CircleLib/lib/alloc.cpp:268-305 | asking for a page keeps the pool in order if and only if a page is free or the page pointer, which failing calls drive on, is not at the end of the address space; a page given out was not in use |
| HeapSpec.PagePointerComesRound | lib/CircleLib/lib/alloc.cpp:288-302 | that end is reached: with no page free, fewer than 2^20 calls in a row bring the memory out of order |
| HeapSpec.PfreeKeepsGood | lib/CircleLib/lib/alloc.cpp:307-328 | giving a page back keeps the pool in order |
| HeapSpec.PallocGrantedIff | lib/CircleLib/lib/alloc.cpp:268-305 | a page is given out if and only if one has been given back, or one more fits in front of the limit |
| HeapSpec.PfreeThenPalloc | lib/CircleLib/lib/alloc.cpp:268-328 | the page given back last is given out first, which takes the pool back to where it was |
| HeapSpec.InitInOrder | lib/CircleLib/lib/alloc.cpp:83-100 | the memory starts in order |
| HeapSpec.CallsAct | lib/CircleLib/lib/alloc.cpp:83-328 | what the calls of a run do: each touches the heap or the pages only, and takes or gives back what it says |
| HeapSpec.FailingCounts | lib/CircleLib/lib/alloc.cpp:288-302 | which pallocs fail, and that each one counts |
| HeapSpec.InitLayout | lib/CircleLib/lib/alloc.cpp:83-100 | where blocks and pages lie, and how much is reserved |
| Heap.Heap.Malloc | lib/CircleLib/lib/alloc.cpp:107-179 | the method over the bump pointer, the bucket table and the linked headers does what is specified |
| Heap.Heap.Free | lib/CircleLib/lib/alloc.cpp:181-214 | so does free |
| Heap.Heap.Realloc | lib/CircleLib/lib/alloc.cpp:234-266 | so does realloc; the memory afterwards is the memory before, with the data copied if the block has moved |
| Heap.ReallocKeepsData | lib/CircleLib/lib/alloc.cpp:257-265 | a block that moves keeps its data, and every other block keeps its own |
| Heap.ReallocFails | lib/CircleLib/lib/alloc.cpp:255-259 | if there is no memory the old block stays in use, all data stays, and only the reserve is given up |
| HeapData.DataIsKept | lib/CircleLib/lib/alloc.cpp:107-328 | over any run of calls, in which callers write to the blocks and pages they have: the data of a block that its owner neither frees nor writes to is at its place, wherever resizing has moved it and however often resizing has failed |
| HeapData.FailedReallocChangesNothing | lib/CircleLib/lib/alloc.cpp:255-259 | in every reachable state a failing realloc leaves the whole memory and all blocks as they were |
| Heap.Pages.Palloc | lib/CircleLib/lib/alloc.cpp:268-305 | the method over the page pointer and the linked free pages does what is specified |
| Heap.Pages.Pfree | lib/CircleLib/lib/alloc.cpp:307-328 | so does pfree |
| I2SSoundSpec.StepKeepsGood | lib/CircleLib/lib/i2ssoundbasedevice.cpp:218-430 | the protocol between driver and DMA engine: every step keeps which buffer holds what, which is playing, and what the state of the device means |
| I2SSoundSpec.NeverFillsPlayingBuffer | lib/CircleLib/lib/i2ssoundbasedevice.cpp:299-320 | the buffer being filled is never the one playing |
| I2SSoundSpec.PlayedInFetchOrder | lib/CircleLib/lib/i2ssoundbasedevice.cpp:218-430 | in every run the chunks played are the chunks fetched, in order, each once; at most two are on their way |
| I2SSoundSpec.WindsDownToIdle | lib/CircleLib/lib/i2ssoundbasedevice.cpp:282-292 | from every state that winds down: the chunks already fetched still play, and then the device is idle |
| I2SSoundSpec.CancelEndsInIdle | lib/CircleLib/lib/i2ssoundbasedevice.cpp:282-430 | from a cancel on, whatever follows: after four more steps of the engine and the handler at the most, all chunks fetched have been played and the device is idle; nothing more is fetched but the second chunk of a start |
| I2SSoundSpec.EmptyFetchEndsInIdle | lib/CircleLib/lib/i2ssoundbasedevice.cpp:375-430 | from an empty fetch on, after two |
| I2SSoundSpec.EngineStepsCount | lib/CircleLib/lib/i2ssoundbasedevice.cpp:375-430 | the steps counted are the ends of blocks and the interrupts |
| I2SSoundSpec.CancelIs | lib/CircleLib/lib/i2ssoundbasedevice.cpp:282-292 | a cancel ends a running transfer at any moment of it, and does nothing to another one |
| I2SSoundSpec.StartIs | lib/CircleLib/lib/i2ssoundbasedevice.cpp:218-264 | a start with a chunk plays it from the first buffer; with none nothing happens |
| I2SSoundSpec.SecondIs | lib/CircleLib/lib/i2ssoundbasedevice.cpp:265-280 | the second chunk goes to the second buffer |
| I2SSoundSpec.RunsOn | lib/CircleLib/lib/i2ssoundbasedevice.cpp:375-412 | a running transfer goes on, and every chunk goes to the buffer that has just been played |
| I2SSoundSpec.ChainEnds | lib/CircleLib/lib/i2ssoundbasedevice.cpp:375-412 | an empty fetch, and the first interrupt after a cancel, end the chain behind the block that is playing |
| I2SSoundSpec.LastBlock | lib/CircleLib/lib/i2ssoundbasedevice.cpp:413-430 | that block is played like any other, and then the device is idle |
| I2SSoundSpec.FailureIs | lib/CircleLib/lib/i2ssoundbasedevice.cpp:375-430 | an engine that fails takes the device to its error state |
| I2SSoundSpec.NeverStuck | lib/CircleLib/lib/i2ssoundbasedevice.cpp:375-430 | while it winds down some step of the engine or the interrupt handler is possible |
| I2SSoundSpec.InOrderUnlessItSlips | lib/CircleLib/lib/i2ssoundbasedevice.cpp:265-279 | a step keeps the order exactly if it is not the empty second fetch of a transfer that was cancelled meanwhile |
| I2SSoundSpec.SlipIsReached | lib/CircleLib/lib/i2ssoundbasedevice.cpp:265-279 | and a run from power-up gets there |
| I2SSoundDevice.I2SSoundDevice.InterruptHandler | lib/CircleLib/lib/i2ssoundbasedevice.cpp:375-430 | the handler makes the specified step |
| I2SSoundDevice.I2SSoundDevice.StartFirst | lib/CircleLib/lib/i2ssoundbasedevice.cpp:218-264 | so does the first half of starting |
| I2SSoundDevice.I2SSoundDevice.StartSecond | lib/CircleLib/lib/i2ssoundbasedevice.cpp:265-280 | and the second |
| SoundSpec.RunFrom | lib/CircleLib/lib/soundbasedevice.cpp:107-348 | over any calls, changes of the write format among them, the queue holds whole frames though its size need be no multiple of a frame, every chunk is filled exactly, and the chunks without their null frames are a prefix of the converted frames accepted |
| SoundSpec.WriteKeepsGood | lib/CircleLib/lib/soundbasedevice.cpp:137-198 | a write queues whole frames |
| SoundSpec.ChunkIsExact | lib/CircleLib/lib/soundbasedevice.cpp:305-348 | a chunk is filled exactly, first from the queue, then with null frames |
| SoundSpec.RunMakesCalls | lib/CircleLib/lib/soundbasedevice.cpp:107-348 | a run makes its calls one after the other; a new format is for what is written from then on |
| SoundSpec.ChunkTakes | lib/CircleLib/lib/soundbasedevice.cpp:305-348 | a chunk takes as much as there is, up to its size, from the front of the queue |
| SoundSpec.SilenceAt | lib/CircleLib/lib/soundbasedevice.cpp:34-61 | a null frame is the middle of the range in both channels |
| SoundSpec.WriteTakesAll | lib/CircleLib/lib/soundbasedevice.cpp:137-198 | a write takes as many whole frames as there are and as there is room for, and not one less |
| SoundSpec.OneMoreFrame | lib/CircleLib/lib/soundbasedevice.cpp:169-190 | frames are converted one after the other |
| SoundSpec.FrameIs | lib/CircleLib/lib/soundbasedevice.cpp:169-190 | within one the left channel comes first; a single channel goes to both |
| SoundSpec.FastPathAgrees | lib/CircleLib/lib/soundbasedevice.cpp:148-167 | the path without conversion queues and returns what the conversion would |
| SoundSpec.InRangeIff | lib/CircleLib/lib/soundbasedevice.cpp:243-303 | a converted sample is in the range the device reports, except exactly that the most negative sample of any format is one below the range of signed 24 bits |
| SoundSpec.ConversionScales | lib/CircleLib/lib/soundbasedevice.cpp:243-303 | for every write format and every hardware format: conversion maps full scale to full scale, and rounds down |
| SoundSpec.SampleIs | lib/CircleLib/lib/soundbasedevice.cpp:247-275 | the value of a sample: offset or two's complement, the lowest byte first |
| SoundSpec.HwBytesAre | lib/CircleLib/lib/soundbasedevice.cpp:277-302 | the bytes written are the value in two's complement, the lowest byte first |
| SoundSpec.ConversionIsMonotone | lib/CircleLib/lib/soundbasedevice.cpp:243-303 | conversion keeps the order of samples |
| SoundDevice.SoundDevice.Write | lib/CircleLib/lib/soundbasedevice.cpp:137-198 | the method over the ring of bytes does what is specified |
| SoundDevice.SoundDevice.SetWriteFormat | lib/CircleLib/lib/soundbasedevice.cpp:107-135 | what is written from now on has the new format; nothing queued changes |
| SoundDevice.SoundDevice.ConvertSoundFormat | lib/CircleLib/lib/soundbasedevice.cpp:243-303 | shifting by way of 32 signed bits gives the converted sample |
| SoundDevice.SoundDevice.GetChunk | lib/CircleLib/lib/soundbasedevice.cpp:305-348 | the buffer is the next chunk, and the application is asked for more exactly if the queue is below half |
| SoundDevice.SoundDevice.constructor | lib/CircleLib/lib/soundbasedevice.cpp:88-105 | the size of the queue |
| SerialSpec.EveryInterleavingIsGood | lib/CircleLib/lib/serial.cpp:190-547 | in every interleaving of writes, reads and interrupts: the bytes handed to the UART and those still queued are the bytes queued, in order; those read and those waiting are the bytes stored, in order; a lost byte is reported by the next read; and outside of writes a byte in the transmit queue has its interrupt enabled |
| SerialSpec.GoodFromPowerUp | lib/CircleLib/lib/serial.cpp:190-547 | so from power-up on, whatever the callers and the interrupts do |
| SerialSpec.WriteQueuesWhatItCounts | lib/CircleLib/lib/serial.cpp:190-252 | whatever interrupts come in between, a write queues the expansion of the characters it counts, and nothing else but possibly a line feed whose carriage return found no room |
| SerialSpec.HalfIff | lib/CircleLib/lib/serial.cpp:206-222 | without interrupts in between that happens if and only if the bytes in front of a line feed fill the queue but for one place |
| SerialSpec.HalfQueuedLineFeed | lib/CircleLib/lib/serial.cpp:206-222 | a concrete case: 2046 plain bytes and a line feed, written after power-up |
| SerialSpec.MayBeHalvedIff | lib/CircleLib/lib/serial.cpp:206-222 | and some interrupts can bring it about if and only if there are at least as many bytes in front of a line feed |
| SerialSpec.WrittenInFull | lib/CircleLib/lib/serial.cpp:190-252 | a text that fits into the free places is written in full, whatever interrupts come in between |
| SerialSpec.WriteIsInterleaving | lib/CircleLib/lib/serial.cpp:190-252 | a whole write with its interrupts, to its last section, is one of the interleavings |
| SerialSpec.WriteKeepsGood | lib/CircleLib/lib/serial.cpp:226-249 | so it keeps what they keep, and a byte it leaves in the queue has its interrupt enabled if no other write is in progress |
| SerialSpec.ReadIs | lib/CircleLib/lib/serial.cpp:254-334 | a read delivers as many bytes as are asked for and waiting, the oldest first; a pending error is reported once, and nothing delivered then |
| SerialSpec.ReceiveIs | lib/CircleLib/lib/serial.cpp:480-532 | a received byte is stored if there is room, whatever error it came with; the first error since the last read is kept, a break before an overrun before a framing error |
| SerialSpec.InterruptIs | lib/CircleLib/lib/serial.cpp:469-547 | the UART gets as many bytes as it has room for and are waiting, the oldest first; the transmit interrupt is turned off exactly if the queue ran empty first |
| SerialSpec.EndWriteIs | lib/CircleLib/lib/serial.cpp:226-249 | the end of a write does the same, and turns it on exactly if the FIFO was full first |
| SerialSpec.PutIs | lib/CircleLib/lib/serial.cpp:432-465 | a byte is queued behind the others if fewer than 2047 are waiting, and dropped if not |
| SerialSpec.ExpandIs | lib/CircleLib/lib/serial.cpp:202-222 | what a text turns into on the line: a carriage return behind every line feed, if that is asked for |
| SerialDevice.SerialDevice.Write | lib/CircleLib/lib/serial.cpp:190-252 | the method over the rings, its loop and its last section, makes the specified steps |
| SerialDevice.SerialDevice.Read | lib/CircleLib/lib/serial.cpp:254-334 | so does reading |
| SerialDevice.SerialDevice.InterruptHandler | lib/CircleLib/lib/serial.cpp:469-547 | so does the interrupt handler |
| SerialDevice.SerialDevice.WriteByte | lib/CircleLib/lib/serial.cpp:432-465 | a byte is queued exactly if there is room |
| SerialDevice.SerialDevice.AvailableForWrite | lib/CircleLib/lib/serial.cpp:361-380 | the free places, one of them never used |
| SerialDevice.SerialDevice.AvailableForRead | lib/CircleLib/lib/serial.cpp:382-401 | the bytes waiting |
| Ring.Put | lib/CircleLib/lib/serial.cpp:432-465 | storing at the in-pointer appends |
| Ring.Get | lib/CircleLib/lib/serial.cpp:516-530 | fetching at the out-pointer takes the oldest element |
| PropertiesSpec.LoadSaveLoad | lib/CircleLib/addon/Properties/propertiesfile.cpp:47-290 | every text that loads at all is, after saving, loaded to the same ordered list, and the parser is in its initial state again |
| PropertiesSpec.RoundTripIffCanonical | lib/CircleLib/addon/Properties/propertiesfile.cpp:47-290 | a list survives saving and loading if and only if its names are distinct and names and values fit the format |
| PropertiesSpec.AcceptedIsCanonical | lib/CircleLib/addon/Properties/propertiesfile.cpp:123-277 | what loading accepts is such a list |
| PropertiesSpec.ReadsAsFreshIffAtLineStart | lib/CircleLib/addon/Properties/propertiesfile.cpp:47-86 | a parser reads every text as a fresh one would if and only if it is at the start of a line: loading does not reset it after a failure |
| PropertiesSpec.RejectedMidLine | lib/CircleLib/addon/Properties/propertiesfile.cpp:47-86 | and a rejected text can leave it in the middle of a line |
| PropertyLines.FileIsLoaded | lib/CircleLib/addon/Properties/propertiesfile.cpp:123-277 | a file with comments, empty lines, blanks around names and values, more than one equal sign, and line ends of either kind loads to the properties in it, the first one of each name |
| PropertyLines.LimitsAre | lib/CircleLib/addon/Properties/propertiesfile.cpp:279-290 | the characters and lengths of names and values that fit the format |
| PropertyLines.SavedIs | lib/CircleLib/addon/Properties/propertiesfile.cpp:88-116 | a saved file is name, equal sign, value and line feed of every property in order |
| PropertiesFile.PropertiesFile.Load | lib/CircleLib/addon/Properties/propertiesfile.cpp:47-86 | the method, which reads pieces of 500 bytes, computes what is specified |
| PropertiesFile.PropertiesFile.Parse | lib/CircleLib/addon/Properties/propertiesfile.cpp:123-277 | so does the automaton over its two character buffers |
| PropertiesFile.PropertiesFile.Save | lib/CircleLib/addon/Properties/propertiesfile.cpp:88-116 | and the writer |
| PropertiesFile.PropertiesFile.TrimValue | lib/CircleLib/addon/Properties/propertiesfile.cpp:222-236 | cutting blanks off the end of the buffer is the trimmed value |
| PropertiesFile.PropertiesFile.AddProperty | lib/CircleLib/addon/Properties/properties.cpp:186-209 | a property that is set already is not replaced |
| PropertiesFile.PropertiesFile.Lookup | lib/CircleLib/addon/Properties/properties.cpp:245-260 | the first property with the name |
| PropertyValues.NumberRoundTrip | lib/CircleLib/addon/Properties/properties.cpp:57-155 | every 32-bit number set in base 10 or 16 is the number one gets: those from 2^31 on are printed as negative ones and wrap around when they are read |
| PropertyValues.NumberSurvivesFile | lib/CircleLib/addon/Properties/properties.cpp:57-155 | it is still there after the properties have been saved and loaded |
| PropertyValues.AddressRoundTrip | lib/CircleLib/addon/Properties/properties.cpp:77-166 | every IP address that is set is the address one gets |
| PropertyValues.NumberIsMeant | lib/CircleLib/addon/Properties/properties.cpp:57-75 | any text of a number is taken for it if nothing follows; with anything behind it there is no number |
| PropertyValues.FormattedIs | lib/CircleLib/addon/Properties/properties.cpp:147-155 | what is printed: the digits of the number, with 0x in front in base 16, and of its negation behind a minus sign from 2^31 on in base 10 |
| PropertyValues.SetThenGet | lib/CircleLib/addon/Properties/properties.cpp:124-145 | what was set is what one gets, and no other property has changed |
| PropertyValues.SetKeepsCanonical | lib/CircleLib/addon/Properties/properties.cpp:124-145 | setting a value that fits keeps a list that survives saving and loading |
| PropertiesFile.PropertiesFile.SetNumber | lib/CircleLib/addon/Properties/properties.cpp:147-155 | the value is the number in the base asked for |
| PropertiesFile.PropertiesFile.GetNumber | lib/CircleLib/addon/Properties/properties.cpp:57-75 | the number, or the default if there is no such property or something else in it |
| PropertiesFile.PropertiesFile.SetIPAddress | lib/CircleLib/addon/Properties/properties.cpp:157-166 | the value is the address with dots |
| PropertiesFile.PropertiesFile.GetIPAddress | lib/CircleLib/addon/Properties/properties.cpp:77-122 | the address, or none if the value is not one |
| PropertiesFile.PropertiesFile.SetString | lib/CircleLib/addon/Properties/properties.cpp:124-145 | the value is replaced, or the property added at the end |
| NumberText.Ntoa | lib/CircleLib/lib/string.cpp:522-557 | the loops that run a divisor up and down the powers of the base print the digits, without leading zeros |
| NumberReading.ReadsDigits | lib/CircleLib/lib/util.cpp:368-414 | digits of a number of 32 bits are read as that number; the overflow test does not strike |
| NumberReading.ReadsDecimal | lib/CircleLib/lib/util.cpp:327-366 | a decimal number is read as such: no prefix is taken for part of it |
| NumberReading.WhatIsADigit | lib/CircleLib/lib/util.cpp:372-395 | the characters that count as digits: also the six behind 9, and the one in front of A, in bases large enough |
| NumberReading.ReadsText | lib/CircleLib/lib/util.cpp:302-432 | where the number fits into 32 bits: blanks, a sign, a prefix and digits of either case are read as it, a negative one as its 32 bits; reading stops behind the digits |
| NumberReading.OutOfRangeIff | lib/CircleLib/lib/util.cpp:395-414 | a number that does not fit into 32 bits comes out as the greatest one if and only if its value in 32 bits drops from one digit to the next, which the overflow test notices, or happens to be that number |
| NumberReading.SixBillion | lib/CircleLib/lib/util.cpp:395-414 | otherwise it is read as another number: 6000000000 as 1705032704 |
| NumberReading.ReadsAnyText | lib/CircleLib/lib/util.cpp:302-432 | so every text of a number, of any size, is read as its value modulo 2^32 or, from the first drop on, as the greatest number |
| NumberReading.OtherBases | lib/CircleLib/lib/util.cpp:312-317 | in base 1 or above 36 nothing is read |
| NumberReading.PrefixRefused | lib/CircleLib/lib/util.cpp:341-353 | a prefix in any base but 16 is refused as a whole |
| NumberReading.WhatIsABlank | lib/CircleLib/lib/util.cpp:321-325 | the six characters that are skipped in front |
| NumberReading.ReadNumber | lib/CircleLib/lib/util.cpp:302-432 | the loops of `strtoul` compute what is specified |
| Numerals.ValueOfDigits | lib/CircleLib/lib/string.cpp:522-557 | the digits printed have the number as their value |
| StandardNumbers.Strtol | lib/Bcm2835Lib/lib/stdlib.cpp:150-237 | for every base, and digits of any number: the value of the digits clamped to 32 signed bits, and where they end (C99, section 7.20.1.4, with 0x20 as the only blank) |
| StandardNumbers.ReadsText | lib/Bcm2835Lib/lib/stdlib.cpp:150-237 | blanks, a sign, a prefix and digits of either case are read as the number they mean, clamped |
| StandardNumbers.ClampingIs | lib/Bcm2835Lib/lib/stdlib.cpp:229-236 | clamping gives the number itself if it has 32 signed bits, and else the nearest one that has |
| StandardNumbers.WhatIsADigit | lib/Bcm2835Lib/lib/stdlib.cpp:200-209 | the digits: 0 to 9, and letters of either case from ten on |
| StandardNumbers.Cutoff | lib/Bcm2835Lib/lib/stdlib.cpp:184-221 | the cutoff test strikes exactly in time: beyond it the next digit overflows 2^31, up to it 32 unsigned bits are enough |
| StandardNumbers.Itoa | lib/Bcm2835Lib/lib/stdlib.cpp:283-332 | sign, prefix and digits, built back to front and turned around in place; or a division that never ends |
| StandardNumbers.TextIs | lib/Bcm2835Lib/lib/stdlib.cpp:283-332 | in every base: the prefix of the bases 16, 8 and 2, the sign of a negative decimal number, and the digits |
| StandardNumbers.DigitsAre | lib/Bcm2835Lib/lib/stdlib.cpp:297-311 | the digits are those of the number, or of its 32 bits, highest first and in small letters |
| StandardNumbers.PrintedIff | lib/Bcm2835Lib/lib/stdlib.cpp:283-332 | for every base from 2 to 36: what is printed is the number if and only if it is zero or doubling the base takes it past the number (for a negative one, its 32 bits) before it takes it out of 32 bits; so for all positive numbers |
| StandardNumbers.TurnAround | lib/Bcm2835Lib/lib/stdlib.cpp:321-329 | the characters are reversed in place |
| StandardNumbers.AtoiOfItoa | lib/Bcm2835Lib/lib/stdlib.cpp:239-332 | every number of 32 signed bits is printed in base 10, and read back |
| StandardNumbers.NegativeNeverPrinted | lib/Bcm2835Lib/lib/stdlib.cpp:283-332 | a negative number in base 2, 4, 8, 16 or 32 is never printed: its first division does not end |
| Dividers.Divide | lib/CircleLib/lib/libhelper.cpp:27-64 | for all 32-bit operands: the unique quotient and rest, without overflow on the way |
| Dividers.DivideInteger | lib/CircleLib/lib/libhelper.cpp:66-90 | the quotient truncated toward zero (C99, section 6.5.5) exactly if it is not the least number divided by -1 |
| Dividers.UnsignedDivMod | lib/Bcm2835Lib/lib/stdlib.cpp:14-47 | for all 32-bit operands: the unique quotient and rest, and 0 for a divisor of 0 |
| Dividers.Div | lib/Bcm2835Lib/lib/stdlib.cpp:83-113 | the two loops on 32 bits; what they answer is the quotient exactly under the condition below |
| Dividers.DivIff | lib/Bcm2835Lib/lib/stdlib.cpp:83-113 | the call answers the quotient if and only if the operands are equal or doubling the divisor takes it past the dividend before it takes it out of 32 bits; otherwise it never ends or answers too much |
| Dividers.DoublesPastIff | lib/Bcm2835Lib/lib/stdlib.cpp:97-100 | that is, some power of two times the divisor is above the dividend and below 2^32 |
| Dividers.SmallDividend | lib/Bcm2835Lib/lib/stdlib.cpp:83-113 | that is so for every dividend below 2^31 |
| Dividers.ForeverIff | lib/Bcm2835Lib/lib/stdlib.cpp:97-100 | the first loop never ends if and only if no shifted divisor is above the dividend in 32 bits |
| Dividers.WrongAnswer | lib/Bcm2835Lib/lib/stdlib.cpp:83-113 | an answer that is wrong: 0xB8000000 by 11 |
| Dividers.LargestDividend | lib/Bcm2835Lib/lib/stdlib.cpp:97-100 | for the dividend 2^32-1 the call ends for no smaller divisor |
| Dividers.DividedIs | lib/CircleLib/lib/libhelper.cpp:27-64 | quotient and rest are unique, so that all dividers agree |
| Calendar.Time.Set | lib/CircleLib/lib/time.cpp:56-97 | the fields are a valid date and time whose seconds are those given, with the right day of the week; the month index never passes 11 |
| Calendar.Time.Get | lib/CircleLib/lib/time.cpp:146-169 | the seconds of the fields, in 32 signed bits |
| Calendar.Time.SetDate | lib/CircleLib/lib/time.cpp:115-144 | a date is taken if and only if it is valid; counting down gives its day of the week |
| Calendar.Time.SetTime | lib/CircleLib/lib/time.cpp:99-113 | a time is taken if and only if it is valid |
| Calendar.WeekDayIs | lib/CircleLib/lib/time.cpp:63-66 | the day of the week in terms of day, month and year alone: the Gregorian calendar's, with Sunday as 0 |
| Calendar.WhatIsValid | lib/CircleLib/lib/time.cpp:219-238 | which dates and times are valid |
| Calendar.MonthStarts | lib/CircleLib/lib/time.cpp:229-238 | the days before each month, of a common and of a leap year |
| Calendar.SecondsInOrder | lib/CircleLib/lib/time.cpp:146-169 | the seconds are strictly monotone in the order of date and time, both ways |
| Calendar.SecondsAreUnique | lib/CircleLib/lib/time.cpp:56-169 | so that setting the seconds of a date and time gives back every field |
| Calendar.PosixSeconds | lib/CircleLib/lib/time.cpp:146-169 | the seconds are those of the formula of POSIX.1-2017, Base Definitions, section 4.16 |
| Calendar.Until2038 | lib/CircleLib/lib/time.cpp:146-169 | they fit into 32 signed bits exactly up to 03:14:07 on 19 January 2038 |
| LcdDisplay.HD44780.Write | lib/CircleLib/addon/display/hd44780device.cpp:100-121 | for every byte string: the buffer is the grid stepped by the bytes, the controller has exactly the buffer at its addresses, and the cursor is on the grid |
| LcdDisplay.HD44780.SetChar | lib/CircleLib/addon/display/hd44780device.cpp:518-527 | one place is written through the 4-bit bus, and nothing else on the display changes |
| LcdDisplay.HD44780.WriteByte | lib/CircleLib/addon/display/hd44780device.cpp:559-576 | two halves are one byte |
| LcdDisplay.HD44780.Initialize | lib/CircleLib/addon/display/hd44780device.cpp:75-88 | number of lines, cursor, cleared display, direction: the controller is set up, and the display shows the empty grid |
| LcdMeaning.HigherHalfFirst | lib/CircleLib/addon/display/hd44780device.cpp:559-576 | the higher half of a byte goes first |
| LcdMeaning.Instructions | lib/CircleLib/addon/display/hd44780device.cpp:75-88 | what the instruction bytes that the driver gives mean to the controller |
| LcdMeaning.StoredAt | lib/CircleLib/addon/display/hd44780device.cpp:518-527 | a byte is stored at the address there is, in the memory that address points into, and nowhere else |
| LcdMeaning.ClearInstruction | lib/CircleLib/addon/display/hd44780device.cpp:349-365 | the one that clears the display blanks the whole memory |
| LcdMeaning.RowsBegin | lib/CircleLib/addon/display/hd44780device.cpp:578-604 | at which addresses the four rows begin |
| LcdDisplay.HD44780.Scroll | lib/CircleLib/addon/display/hd44780device.cpp:502-516 | the rows move up by one, on the display and in the buffer |
| LcdDisplay.HD44780.ClearDisplayEnd | lib/CircleLib/addon/display/hd44780device.cpp:349-376 | everything from the cursor on is blank, by the controller's own clearing or place by place |
| LcdDisplay.HD44780.DefineCharFont | lib/CircleLib/addon/display/hd44780device.cpp:537-557 | a glyph is stored in the memory for glyphs, and does not touch what is shown |
| LcdMeaning.GlyphIs | lib/CircleLib/addon/display/hd44780device.cpp:537-557 | the lowest five bits of each of its eight rows, at the eight places of its code |
| LcdSpec.SeparateIff | lib/CircleLib/addon/display/hd44780device.cpp:578-604 | different places have different addresses if and only if there are at most two rows or at most 32 columns |
| LcdSpec.OnLinesIff | lib/CircleLib/addon/display/hd44780device.cpp:578-604 | every place has an address behind which a controller with two lines of forty has memory, if and only if there are at most two rows or at most 20 columns |
| LcdSpec.StepKeepsGood | lib/CircleLib/addon/display/hd44780device.cpp:123-342 | every byte leaves the cursor on the grid |
| LcdMeaning.LineFeed | lib/CircleLib/addon/display/hd44780device.cpp:386-394 | a line feed: the first column of the next row; in the last row all rows move up by one, and the last one is blank |
| LcdMeaning.Backspace | lib/CircleLib/addon/display/hd44780device.cpp:402-416 | to the left; from the first column, to the end of the row above if there is one |
| LcdMeaning.Return | lib/CircleLib/addon/display/hd44780device.cpp:344-347 | to the first column |
| LcdMeaning.Tabs | lib/CircleLib/addon/display/hd44780device.cpp:493-500 | to the next column that is a multiple of eight, or to a new line |
| LcdMeaning.Printable | lib/CircleLib/addon/display/hd44780device.cpp:444-459 | the character is put where the cursor is, the codes from 0x80 to 0x87 as the glyphs 0 to 7; the cursor goes on |
| LcdMeaning.OtherControl | lib/CircleLib/addon/display/hd44780device.cpp:127-154 | the other control characters do nothing |
| LcdMeaning.UpAndDown | lib/CircleLib/addon/display/hd44780device.cpp:386-442 | ESC [ A and B: up; down, scrolling in the last row |
| LcdMeaning.ForwardAndBack | lib/CircleLib/addon/display/hd44780device.cpp:402-434 | ESC [ C and D |
| LcdMeaning.Home | lib/CircleLib/addon/display/hd44780device.cpp:396-400 | ESC [ H without numbers: the upper left corner |
| LcdMeaning.EraseInDisplay | lib/CircleLib/addon/display/hd44780device.cpp:349-376 | ESC [ J: every place from the cursor on, in its row and in all rows below, is blank; every other one stays |
| LcdMeaning.EraseInLine | lib/CircleLib/addon/display/hd44780device.cpp:378-384 | ESC [ K: every place from the cursor to the end of its row |
| LcdMeaning.EraseSome | lib/CircleLib/addon/display/hd44780device.cpp:461-478 | ESC [ n X: as many places as the number says, but not beyond the row; other final bytes do nothing |
| LcdMeaning.Position | lib/CircleLib/addon/display/hd44780device.cpp:418-426 | ESC [ n ; m H: row and column count from one; ignored if the place is not on the display |
| LcdMeaning.CursorShown | lib/CircleLib/addon/display/hd44780device.cpp:307-335 | ESC [ ? n h and l: the cursor if the number is 25, and nothing otherwise |
| LcdMeaning.NumberMissing | lib/CircleLib/addon/display/hd44780device.cpp:256-278 | where a number must come behind a semicolon or a question mark, any other byte ends the sequence |
| LcdMeaning.OutOfRangeEnds | lib/CircleLib/addon/display/hd44780device.cpp:225-254 | a number goes on digit by digit, and ends the sequence where it gets out of range |
| LcdMeaning.UnknownSequence | lib/CircleLib/addon/display/hd44780device.cpp:156-223 | any other byte ends a sequence and does nothing |
| SerialUpload.UploadInvertsFraming | src/kernel/mmsjos.cpp:987-1114 | for every file, whatever bytes it holds, and whatever noise there is between the frames: the file received is the file sent, under its name in upper case |
| SerialUpload.UpperCaseIs | src/kernel/mmsjos.cpp:1022 | the 26 small letters become capital ones; every other byte stays |
| SerialUpload.FramedIs | src/kernel/mmsjos.cpp:1046-1055 | a frame on the line: noise, the mark, and the byte |
| SerialUpload.NoEnd | src/kernel/mmsjos.cpp:1046-1106 | an end byte without a mark behind it is dropped together with the byte that is there |
| SerialUpload.OtherStart | src/kernel/mmsjos.cpp:1000-1114 | a second byte other than the mark is no upload |
| SerialUpload.Load232 | src/kernel/mmsjos.cpp:987-1114 | for every file that fits into memory: the loops compute what is specified, and the pieces written to the file are together what was received |
| SerialUpload.StoresTheFile | src/kernel/mmsjos.cpp:1048-1054 | what has to fit into memory is the file, not the stream it comes in |
| SerialUpload.SavePieces | src/kernel/mmsjos.cpp:1074-1095 | the loop writes the pieces of the file |
| SerialUpload.PiecesMakeUp | src/kernel/mmsjos.cpp:1074-1095 | these make up the file, for every length: all but the last have 128 bytes, and an empty file is one empty piece |

## Left out

- Register access, spin locks, cache maintenance, barriers, boot code, and the other drivers (GPIO, SPI, I2C, USB, EMMC): nothing to prove without the hardware.
- The rest of the shell (`src/kernel/mmsjos.cpp`) but the upload, TFT drawing, windows and touch: user interface.
- `pwmsoundbasedevice.cpp`: the same machine as `i2ssoundbasedevice.cpp`.
- 1-Wire: pulse timing, `select` and `skip`.
- KernelTimer.Timers.StartKernelTimer: the tick count is read outside the spin lock in the source; here a start is one step. Delays of 0 and from 2^31 on, which the source takes without a check and which its signed comparison cannot tell from the past, are left out. The reuse of a freed record's address as a new handle is not modelled either.
- KernelTimer.Timers.InterruptHandler: the wall clock, the compare register and the periodic handler are left out; the uptime is an unbounded count.
- ScreenDevice.Screen.Write: `SetStatus`, `Rotor`, the empty `InsertLines`, `DeleteLines` and `DeleteChars`, and `m_bUpdated` are left out. Blanking by 32-bit words is done pixel by pixel, at 16 bits a pixel.
- ScreenDevice.Screen.constructor: frame buffers whose width is no multiple of eight, which the source does not refuse; going left from the first column would end between two columns there.
- ScreenPixels.UnderlineIsCursor: the font is any table of 223 glyphs; its bitmaps are not copied.
- Heap.Heap.Malloc: a header is a record per block, not sixteen bytes of the memory; `calloc` and the statistics are left out.
- Heap.Heap.Realloc: the last fifteen sizes, for which the copy would leave the memory; HeapSpec.ReallocKeepsGood says when they go wrong.
- HeapSpec.SecondTry: in the repository's own configuration (`STDLIB_SUPPORT` 1, `lib/CircleLib/Rules.mk:31`) a failing `malloc` logs a panic, which halts the system; only with `STDLIB_SUPPORT` 3 does it return and is there a second try (`alloc.cpp:155-161`). The same holds for what a failing `realloc` leaves.
- SoundDevice.SoundDevice.GetChunk: whether the callback is registered; the two overloads of `GetChunk`.
- SoundDevice.SoundDevice.ConvertSoundFormat: the unknown write format, and the byte behind a 24-bit sample that is read and masked out.
- SerialDevice.SerialDevice.InterruptHandler: the magic string scanner, the polled mode and the line parameters.
- SerialDevice.SerialDevice.Write: two writes at once are covered by the interleavings of `SerialSpec`, not by the method.
- I2SSoundDevice.I2SSoundDevice.InterruptHandler: clock setup and the error interrupt are left out.
- PropertiesFile.PropertiesFile.Load: errors of the file system.
- NumberText.Ntoa: of `FormatV` only what properties need is modelled; widths, alignment and the growing buffer are left out.
- NumberReading.ReadsAnyText: the digits are letters and the characters 0 to 9; NumberReading.WhatIsADigit names the other characters taken for digits. A sign or a prefix without a digit behind it is left out.
- StandardNumbers.Itoa: the negation of the least number, undefined in C, is taken to wrap around; bases outside 2 to 36 are left out.
- Dividers.DivideInteger: the negation of the least number is taken to wrap around.
- Dividers.Divide: the exception for a divisor of 0.
- SerialUpload.Load232: messages, and errors of the file system. A receiver still waiting when the input ends is incomplete.
- SerialUpload.UploadInvertsFraming: the name is the fifteen bytes received; the source has no terminator behind them (`mmsjos.cpp:993` and `1068`), so that the file system takes it for the name only if one of them is 0.
- LcdDisplay.HD44780.Write: the controller's memory is taken to have all 128 addresses; LcdSpec.OnLinesIff says on which displays only those behind its two lines are used. Left out are the first half byte, which switches the controller to 4-bit mode, and the pauses.
- Rings of the logger and the tracer, `classallocator.cpp`, `ptrarray.cpp`, `devicenameservice.cpp`: easier versions of what is here.
- `%f` in `string.cpp`: floating point.
