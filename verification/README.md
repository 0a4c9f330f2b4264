# Flash, USB, clock, queue and philosopher models

Dafny models of the parts of this repository whose behaviour is hard to see from the code, and proofs about them.
`dafny verify dfyconfig.toml` checks the whole project.

* **Flash writer** (`FlashHardware`, `FlashAccess`, `FlashPages`, `FlashMemcpy`, `FlashMemset`, `BigEndian`). The
  controller has flash cells by absolute address in two areas (the array and the User page), a page buffer that stores
  can only clear bits in, a current page number, and commands that may raise error bits. `flashc_memcpy` and
  `flashc_memset64` are proved to implement one line: these bytes change, nothing else does. The proof goes through
  `Progress`, the invariant of the outer loop, and `Filled`, the state of the page buffer between its clear and the
  page write. The history of commands, stores and page writes is ghost.
* **Fuses** (`GpFuses`, `FuseBytes`, `Bootloader`). Assignment to 64 fuses although erasing can only set them and
  writing can only clear them, and the bootloader size kept in one of their fields.
* **Clock solver** (`ClockSolver`, `ClockConfiguration`). The search for PLL multiplier and dividers: exact, complete, and
  optimal among all settings; and the register fields that keep what it finds, or part of it.
* **Message queue** (`MessageFifo`, `HandOff`, `ResourceManager`). Two rings whose cells carry their own markers refine
  bounded queues; the read and write handlers over the rings refine the steps of an abstract hand-off protocol, about
  which the run theorems are proved. The queue length 4 is generalised to any length.
* **USB control endpoint** (`UsbTransfer`, `UsbControl`, `UsbProtocol`, `UsbCounterexamples`, `UsbDriver`). The handlers of `UsbDriver`
  work on payload memory, 16-bit counters and the other variables of the driver; each refines a step of the state
  machine `UsbControl`, in which host, hardware and callbacks may do anything at any time. `UsbProtocol` says
  what every event does to the endpoint, from the bytes of the event on. Run theorems are about all sequences of interrupts
  and bus resets.
* **Philosophers** (`Philosophers`). The threads as interleaved lock and unlock steps, for any number of at least two
  philosophers and any amount of food.

`Arith`, `Bits` and `Common` hold what several of them share.

Some statements one would expect are false of the code. Each has a theorem that says exactly when it holds:

* A fuse bit-field that runs past bit 63 is written around to bit 0 but read cut off (`GpFuses.BitfieldRoundTrip`), and
  its erase check reports a failure for an erase that succeeded (`GpFuses.ErasedFieldRead`).
* `flashc_set_gp_fuse_byte` masks the index in the write but compares it unmasked in the erase
  (`FuseBytes.ByteAssignment`).
* The header says that the error status covers every command of the last call. `flashc_erase_user_page` with a check
  forgets the error of the erase (`FlashAccess.UserEraseStatusIff`), and `flashc_write_gp_fuse_bitfield` takes over an
  older status (`GpFuses.WriteFieldStatusIff`).
* A request of 2^31 or more protects two pages for the bootloader (`Bootloader.RequestRounds`).
* The powers of two exported from the PLL divider can put the VCO over its limit (`ClockSolver.Search`), and the PBA
  limit holds only where no halving falls between it and the request (`ClockSolver.PbaLimitIff`,
  `ClockSolver.PbaOptimalIff`).
* `pm.h` (line 497) says that the frequencies programmed are stored back. They are, unless divider or selects do not fit
  their register fields, which the code never checks (`ClockConfiguration.CpuRunsIff`, `ClockConfiguration.PbaRunsIff`; with
  `DividerFitsIff`, `CpuSelectFitsIff` and `PbaSelectFitsIff` for the condition on the request).
* A reader that finds the ring of blocked clients full is neither answered nor refused (`HandOff.ForgottenIff`).
* `udd.h` (lines 97-98) says that `over_under_run` is called when an IN buffer is empty, and goes on with a new one. It
  goes on only when the buffer ended in a full packet and the host has been given all it asked for
  (`UsbControl.AdoptedIff`), so the host gets nothing it asked for from a second buffer
  (`UsbControl.EveryInStageServesFirstBuffer`).
* An empty continuation buffer puts a zero-length packet between data packets, and an OUT packet that straddles two
  buffers loses its tail (`UsbControl.InStageCompletes`, `UsbControl.OutPacket`). `UsbCounterexamples` has a run of each
  of these three.
* The philosophers can deadlock exactly when there is more food than philosophers, and the last portion is never eaten
  (`Philosophers.DeadlockReachableIff`, `Philosophers.AllFinishedMeals`).

## Model

| member | source | states |
|---|---|---|
| `FlashMemcpy.Memcpy` | Ex-03/AVR32 Template/src/asf/avr32/drivers/flashc/flashc.c:886-1091 | For every address, length, source alignment and erase flag: the sticky status is the OR of the errors of every command of the call; with no error the flash cells become exactly the old ones with the data laid over them where it falls on flash (without erase ANDed in, by the hardware assumption named below), and nothing else changes; over a blank destination no erase is needed (the condition of flashc.h, lines 991-995), and copying what is there already changes nothing; each page that meets the range is written exactly once, after one store to each of its double-words, and no other page is; even with errors no cell outside those pages changes; source bytes past `nbytes` do not matter. |
| `FlashMemset.Memset64` | Ex-03/AVR32 Template/src/asf/avr32/drivers/flashc/flashc.c:713-883 | The same for a repeated pattern, also where the start of the range was clipped into flash; each round of 8 bytes in flash then holds the number given, most significant byte first (Numbered). |
| `FlashMemset.Memset32` | Ex-03/AVR32 Template/src/asf/avr32/drivers/flashc/flashc.c:707-710 | The same with rounds of 4 bytes, each holding the 32-bit number. |
| `FlashMemset.Memset16` | Ex-03/AVR32 Template/src/asf/avr32/drivers/flashc/flashc.c:701-704 | The same with rounds of 2 bytes, each holding the 16-bit number. |
| `FlashMemset.Memset8` | Ex-03/AVR32 Template/src/asf/avr32/drivers/flashc/flashc.c:695-698 | The same byte everywhere. |
| `BigEndian.DoubledPattern` | Ex-03/AVR32 Template/src/asf/avr32/drivers/flashc/flashc.c:695-710 | Repeating a w-byte number once in 2w bytes gives the same endless pattern, so each wrapper means what the next one writes. |
| `BigEndian.PatternValue` | Ex-03/AVR32 Template/src/asf/avr32/drivers/flashc/flashc.c:730-735 | Read as a number, most significant byte first, the first round of the pattern is the value. |
| `BigEndian.PatternRepeats` | Ex-03/AVR32 Template/src/asf/avr32/drivers/flashc/flashc.c:819-820 | Every further round is the same bytes. |
| `FlashMemset.OverlayNumbered` | Ex-03/AVR32 Template/src/asf/avr32/drivers/flashc/flashc.c:713-883 | So each round of the range that lies in flash holds the number. |
| `FlashMemcpy.CopyInParts` | Ex-03/AVR32 Template/src/asf/avr32/drivers/flashc/flashc.c:886-1091 | Two calls on consecutive parts of a range leave what one call on the whole range leaves, and their statuses add up to the errors of both. |
| `FlashPages.Clip` | Ex-03/AVR32 Template/src/asf/avr32/drivers/flashc/flashc.c:907-927 | The clipped range has the same flash cells as the range asked for; it starts at the destination or at the start of an area, and ends in an area. |
| `FlashPages.ProgressStarts` | Ex-03/AVR32 Template/src/asf/avr32/drivers/flashc/flashc.c:929-935 | Before the first page, the progress invariant of the outer loop holds for the clipped range. |
| `FlashPages.ProgressStep` | Ex-03/AVR32 Template/src/asf/avr32/drivers/flashc/flashc.c:935-1084 | Committing the page of the destination advances the invariant to the next page, or from the end of the array to the User page: contents, errors and page writes together. |
| `FlashPages.ProgressEnds` | Ex-03/AVR32 Template/src/asf/avr32/drivers/flashc/flashc.c:935-1088 | When no destination is left, the invariant is the specification: contents, and every page of the range written exactly once. |
| `FlashPages.StepContents` | Ex-03/AVR32 Template/src/asf/avr32/drivers/flashc/flashc.c:935-1084 | Below the frontier the data is in flash, from it on nothing has changed, through the commit of one page. |
| `FlashPages.StepSweep` | Ex-03/AVR32 Template/src/asf/avr32/drivers/flashc/flashc.c:1054-1083 | The page writes stay in address order and miss no page that meets the range, also across the gap between the two areas. |
| `FlashPages.MeetsClipped` | Ex-03/AVR32 Template/src/asf/avr32/drivers/flashc/flashc.c:907-927 | A page that meets the range meets it inside the clipped range. |
| `FlashPages.IncompleteEnd` | Ex-03/AVR32 Template/src/asf/avr32/drivers/flashc/flashc.c:946-948 | The test for an incomplete page end (comparing page-aligned addresses) holds exactly when the data ends inside the page. |
| `FlashPages.StoreNext` | Ex-03/AVR32 Template/src/asf/avr32/drivers/flashc/flashc.c:984-984 | A store at the frontier extends the filled part of the page buffer by one double-word, although a store can only clear bits; and the page-number field then designates this page. |
| `FlashPages.FillFromFlash` | Ex-03/AVR32 Template/src/asf/avr32/drivers/flashc/flashc.c:957-960 | Fills the page buffer from flash up to a double-word, one store per slot. |
| `FlashPages.FillToPageEnd` | Ex-03/AVR32 Template/src/asf/avr32/drivers/flashc/flashc.c:1047-1049 | Fills the page buffer from flash up to the page boundary. |
| `FlashPages.CommitPage` | Ex-03/AVR32 Template/src/asf/avr32/drivers/flashc/flashc.c:1053-1083 | With no error the page holds its image (ANDed in without erase); whatever the errors, only this page changes; exactly one page write; the destination moves on to the User page at the end of the array. |
| `FlashMemcpy.PatchStart` | Ex-03/AVR32 Template/src/asf/avr32/drivers/flashc/flashc.c:969-975 | The first double-word holds flash data below the destination and source data from there on, up to the end of the data. |
| `FlashMemcpy.FillStart` | Ex-03/AVR32 Template/src/asf/avr32/drivers/flashc/flashc.c:950-990 | From the page start to the first double-word boundary after the destination; the double-word stays pending exactly where it is also the last one. |
| `FlashMemcpy.CopyDwords` | Ex-03/AVR32 Template/src/asf/avr32/drivers/flashc/flashc.c:992-1015 | Whole double-words reach the page buffer unchanged, whatever the width the source alignment allows. |
| `FlashMemcpy.PatchEnd` | Ex-03/AVR32 Template/src/asf/avr32/drivers/flashc/flashc.c:1020-1041 | The last double-word holds source data below the end of the data and flash data from there on, pending or not. |
| `FlashMemcpy.FillEnd` | Ex-03/AVR32 Template/src/asf/avr32/drivers/flashc/flashc.c:1017-1051 | From the end of the data, the rest of the page buffer is what flash holds. |
| `FlashMemcpy.FillPage` | Ex-03/AVR32 Template/src/asf/avr32/drivers/flashc/flashc.c:941-1051 | Exactly the double-words of one page are stored, once each and in order, and the buffer is the image of the page. |
| `FlashMemcpy.CopyPage` | Ex-03/AVR32 Template/src/asf/avr32/drivers/flashc/flashc.c:937-1083 | One turn of the outer loop: image, commit, sticky status, next destination and source. |
| `FlashMemset.BuildSource` | Ex-03/AVR32 Template/src/asf/avr32/drivers/flashc/flashc.c:727-735 | The pattern laid out by absolute alignment: byte i of any aligned double-word is pattern byte (i - dst) mod 8, although the loop stops as soon as the rest of the value is zero. |
| `FlashMemset.SetStart` | Ex-03/AVR32 Template/src/asf/avr32/drivers/flashc/flashc.c:779-816 | The same as FillStart, for a pattern. |
| `FlashMemset.SetPage` | Ex-03/AVR32 Template/src/asf/avr32/drivers/flashc/flashc.c:766-875 | One turn of the outer loop of the pattern writer. |
| `FlashHardware.FlashController.IssueCommand` | Ex-03/AVR32 Template/src/asf/avr32/drivers/flashc/flashc.c:298-309 | A negative page number keeps the current one; the status is that of this command; an erroneous command has no effect. |
| `FlashHardware.FlashController.StoreDword` | Ex-03/AVR32 Template/src/asf/avr32/drivers/flashc/flashc.c:984-984 | The hardware side of a store to flash: it ANDs into the page buffer and, in the array, designates the page. |
| `FlashHardware.PageInFlash` | Ex-03/AVR32 Template/src/asf/avr32/drivers/flashc/flashc.c:907-944 | A page lies wholly in its area and holds whole double-words. |
| `FlashAccess.ErrorsAddUp` | Ex-03/AVR32 Template/src/asf/avr32/drivers/flashc/flashc.c:653-666 | The errors of the commands of two stretches are the OR of both: what every accumulated status rests on. |
| `FlashAccess.ErasePage` | Ex-03/AVR32 Template/src/asf/avr32/drivers/flashc/flashc.c:640-651 | Erases exactly the designated page; the commands issued, and a status that is the OR over them; the answer is whether the page is blank as soon as the read raised no error, whatever the erase did. |
| `FlashAccess.EraseAllPages` | Ex-03/AVR32 Template/src/asf/avr32/drivers/flashc/flashc.c:654-666 | With no error the whole array is blank and it says so; with errors, each page is erased exactly if its own erase raised none; with a check whose reads raised none, the answer is whether the whole array is blank; the User page never changes; the status is the OR of all commands. |
| `FlashAccess.SweptNext` | Ex-03/AVR32 Template/src/asf/avr32/drivers/flashc/flashc.c:659-663 | One turn of the loop keeps all that, in descending order of the pages. |
| `FlashAccess.EraseUserPage` | Ex-03/AVR32 Template/src/asf/avr32/drivers/flashc/flashc.c:682-686 | Erases exactly the User page; the commands issued and the status left are UserEraseCommands and UserEraseStatus of the errors the hardware raises. |
| `FlashAccess.UserEraseStatusIff` | Ex-03/AVR32 Template/src/asf/avr32/drivers/flashc/flashc.c:682-686 | That status is the OR of the errors of the commands for all answers of the hardware if and only if no check is asked for (ErasePage, lines 644-649, accumulates it). |
| `FlashAccess.LockedUserPage` | Ex-03/AVR32 Template/src/asf/avr32/drivers/flashc/flashc.c:682-686 | With a check, a lock error of the erase is hidden by the clean status of the check. |
| `FlashAccess.WritePage` | Ex-03/AVR32 Template/src/asf/avr32/drivers/flashc/flashc.c:669-672 | ANDs the page buffer into the designated page only. |
| `GpFuses.ReadAllIsFuses` | Ex-03/AVR32 Template/src/asf/avr32/drivers/flashc/flashc.c:452-455 | The two 32-bit halves make the 64-bit number of the fuses. |
| `GpFuses.ReadBitIsFuse` | Ex-03/AVR32 Template/src/asf/avr32/drivers/flashc/flashc.c:434-437 | Reading bit b gives fuse b mod 64. |
| `GpFuses.ReadBitfieldBits` | Ex-03/AVR32 Template/src/asf/avr32/drivers/flashc/flashc.c:440-443 | A bit-field read is the fuses from its position on, cut off at the top of the register. |
| `GpFuses.EraseBit` | Ex-03/AVR32 Template/src/asf/avr32/drivers/flashc/flashc.c:458-462 | Sets one fuse; the check tells whether it is set. |
| `GpFuses.WriteBit` | Ex-03/AVR32 Template/src/asf/avr32/drivers/flashc/flashc.c:508-512 | Clears one fuse; a true value issues no command and leaves an older status in place. |
| `GpFuses.SetBit` | Ex-03/AVR32 Template/src/asf/avr32/drivers/flashc/flashc.c:549-555 | Assigns one fuse, with the status of its command. |
| `GpFuses.SetBitfield` | Ex-03/AVR32 Template/src/asf/avr32/drivers/flashc/flashc.c:558-570 | Bit k of the value goes to fuse pos + k modulo 64, every other fuse stays, and the status is the OR of the commands. |
| `GpFuses.BitfieldRoundTrip` | Ex-03/AVR32 Template/src/asf/avr32/drivers/flashc/flashc.c:440-443 | Setting a field (lines 558-570) and reading it gives the value mod 2^width if and only if the field does not run past the top, or the part that wraps around is zero; the fuses outside the field stay. |
| `GpFuses.WrappedFieldIsLost` | Ex-03/AVR32 Template/src/asf/avr32/drivers/flashc/flashc.c:440-443 | A two-bit field at position 63 is not read back. |
| `GpFuses.WriteBitfield` | Ex-03/AVR32 Template/src/asf/avr32/drivers/flashc/flashc.c:515-527 | Clears the fuses whose value bit is 0; issues exactly one command for each 0 bit (FieldCommands); the status is WriteFieldStatus of those commands and the status found. |
| `GpFuses.WriteFieldStatusIff` | Ex-03/AVR32 Template/src/asf/avr32/drivers/flashc/flashc.c:508-527 | For every position, width and value: that status is the OR of the commands the value calls for, whatever the hardware answers to them and answered before, if and only if the field is empty or its first bit is 0. |
| `GpFuses.StaleStatus` | Ex-03/AVR32 Template/src/asf/avr32/drivers/flashc/flashc.c:508-527 | Writing one 1 bit after a call that raised a lock error issues no command, and leaves the lock error as its own. |
| `GpFuses.WrappedEraseReportsFailure` | Ex-03/AVR32 Template/src/asf/avr32/drivers/flashc/flashc.c:465-478 | The two-bit field at position 63: both fuses are erased, and the comparison of line 477 fails. |
| `GpFuses.EraseBitfield` | Ex-03/AVR32 Template/src/asf/avr32/drivers/flashc/flashc.c:465-478 | Sets every fuse of the field; the check reports success if and only if the field does not wrap, since it compares a cut-off read. |
| `GpFuses.ErasedFieldRead` | Ex-03/AVR32 Template/src/asf/avr32/drivers/flashc/flashc.c:477-477 | An erased field reads as all ones if and only if it does not wrap. |
| `FuseBytes.WriteByte` | Ex-03/AVR32 Template/src/asf/avr32/drivers/flashc/flashc.c:530-533 | ANDs the value into the byte the masked index designates. |
| `FuseBytes.EraseAll` | Ex-03/AVR32 Template/src/asf/avr32/drivers/flashc/flashc.c:501-505 | Sets all 64 fuses; the check tells whether they are set. |
| `FuseBytes.EraseByte` | Ex-03/AVR32 Template/src/asf/avr32/drivers/flashc/flashc.c:481-498 | All fuses are erased and the other seven bytes are written back as they were; for an index above 7 all eight are, and the check then finds what the masked byte was. |
| `FuseBytes.ErasedByteRead` | Ex-03/AVR32 Template/src/asf/avr32/drivers/flashc/flashc.c:497-497 | After the write-back, the checked byte is 0xFF if and only if the index is 0 to 7 or the byte was 0xFF before. |
| `FuseBytes.RestoreNext` | Ex-03/AVR32 Template/src/asf/avr32/drivers/flashc/flashc.c:488-495 | Writing byte k over erased fuses restores it; the skipped byte needs no write. |
| `FuseBytes.ByteBits` | Ex-03/AVR32 Template/src/asf/avr32/drivers/flashc/flashc.c:446-449 | Byte k of the 64-bit number is fuses 8k to 8k + 7. |
| `FuseBytes.WriteAll` | Ex-03/AVR32 Template/src/asf/avr32/drivers/flashc/flashc.c:536-546 | Every fuse is ANDed with its bit of the value. |
| `FuseBytes.SetByte` | Ex-03/AVR32 Template/src/asf/avr32/drivers/flashc/flashc.c:573-590 | In all three branches: the same assignment, and a status that is the OR of all the commands. |
| `FuseBytes.ByteAssignment` | Ex-03/AVR32 Template/src/asf/avr32/drivers/flashc/flashc.c:573-590 | The byte becomes the value if and only if the index is 0 to 7 or no bit has to be set; the other seven bytes stay. |
| `FuseBytes.LargeIndexFails` | Ex-03/AVR32 Template/src/asf/avr32/drivers/flashc/flashc.c:573-590 | Setting byte 8 to 1 over cleared fuses sets nothing. |
| `FuseBytes.SetAll` | Ex-03/AVR32 Template/src/asf/avr32/drivers/flashc/flashc.c:593-610 | Afterwards the fuses read as exactly the value, in all three branches. |
| `FuseBytes.ErasedThenWritten` | Ex-03/AVR32 Template/src/asf/avr32/drivers/flashc/flashc.c:593-610 | Erasing sets all, and writing over erased fuses leaves the value; over any fuses, writing 0 leaves 0. |
| `Bootloader.SetProtectedSize` | Ex-03/AVR32 Template/src/asf/avr32/drivers/flashc/flashc.c:361-374 | Returns, and leaves to be read, 0 for 0, else the least supported size that holds the request, or the largest one; but two pages for a request of 2^31 or more, which the signed maximum takes for a negative number; the fuses of the field are then all erased if and only if the request was 0; the fuses outside the field stay. |
| `Bootloader.RequestRounds` | Ex-03/AVR32 Template/src/asf/avr32/drivers/flashc/flashc.c:363-372 | The field value computed for any 32-bit request fits the field and stands for the least supported size, or for two pages from 2^31 on. |
| `Bootloader.CeilLog` | Ex-03/AVR32 Template/src/asf/avr32/drivers/flashc/flashc.c:366-371 | 31 - clz(2m - 1) is the logarithm of m rounded up. |
| `Bootloader.IsLeast` | Ex-03/AVR32 Template/src/asf/avr32/drivers/flashc/flashc.c:366-371 | Rounding the clamped page count up gives the least supported size not below the request. |
| `Bootloader.FieldReadBack` | Ex-03/AVR32 Template/src/asf/avr32/drivers/flashc/flashc.c:352-374 | The size read after the field has been set is the one set, and only the field changed. |
| `Bootloader.UnprotectedIffErased` | Ex-03/AVR32 Template/src/asf/avr32/drivers/flashc/flashc.c:352-358 | Of the fuses alone: the size read is 0 if and only if every fuse of the field is erased. |
| `Bootloader.SizeOfNumber` | Ex-03/AVR32 Template/src/asf/avr32/drivers/flashc/flashc.c:354-357 | Of the number the fuses form: the page is doubled as often as the number is below all ones. |
| `Bootloader.SizeDoubles` | Ex-03/AVR32 Template/src/asf/avr32/drivers/flashc/flashc.c:354-357 | One below all ones is two pages, and each further step down doubles the size. |
| `ClockConfiguration.ConfigureClocks` | Ex-03/AVR32 Template/src/asf/avr32/drivers/pm/pm_conf_clocks.c:60-224 | Succeeds if and only if the request is the oscillator frequency or some multiplier and divider reach it; then reports exactly the requested CPU frequency and the PBA frequency found, and leaves in the registers what their bit-fields keep of the setting; so the CPU runs at the frequency reported if and only if divider and CPU select fit their fields, and the PBA if and only if the PBA select does. From the registers alone: the option for a slow PLL is set if and only if the PLL output is below the VCO range, and PBB and HSB run with the CPU. |
| `ClockConfiguration.CpuRunsIff` | Ex-03/AVR32 Template/src/asf/avr32/drivers/pm/pm.c:342-414 | A setting cut to the bit-fields still realises the CPU frequency if and only if divider and CPU select fit: nothing that is cut off ever makes up for something else. |
| `ClockConfiguration.PbaRunsIff` | Ex-03/AVR32 Template/src/asf/avr32/drivers/pm/pm.c:342-361 | The PBA runs at the frequency reported if and only if its select fits. |
| `ClockConfiguration.PllOutputOf` | Ex-03/AVR32 Template/src/asf/avr32/drivers/pm/pm_conf_clocks.c:137-157 | Where the divider fits, the PLL output that the register gives is the frequency the search computes with. |
| `ClockConfiguration.DividerFitsIff` | Ex-03/AVR32 Template/src/asf/avr32/drivers/pm/pm_conf_clocks.c:97-149 | The divider found fits its field if and only if any setting of the two PLL fields, with any halvings, reaches the frequency. |
| `ClockConfiguration.HalvingsIff` | Ex-03/AVR32 Template/src/asf/avr32/drivers/pm/pm_conf_clocks.c:112-129 | There are at least n halvings if and only if n powers of two were exported from the divider, or the first multiplier can be doubled up to there within its field and the VCO limit. |
| `ClockConfiguration.CpuSelectFitsIff` | Ex-03/AVR32 Template/src/asf/avr32/drivers/pm/pm_conf_clocks.c:131-197 | The CPU select fits if and only if one halving more than it can hold is ruled out so. |
| `ClockConfiguration.CpuSelectFits` | Ex-03/AVR32 Template/src/asf/avr32/drivers/pm/pm_conf_clocks.c:112-197 | With multipliers up to 15 and selects up to 5 or more, the CPU select always fits: there are at most 7 halvings. |
| `ClockConfiguration.PbaHalvingsIff` | Ex-03/AVR32 Template/src/asf/avr32/drivers/pm/pm_conf_clocks.c:159-167 | The PBA search ends within n halvings if and only if the n-th is below the request, or equals it within the limit. |
| `ClockConfiguration.PbaSelectFitsIff` | Ex-03/AVR32 Template/src/asf/avr32/drivers/pm/pm_conf_clocks.c:159-195 | The PBA select fits if and only if the slowest PBA clock it can hold is below the request, or equals it within the limit. |
| `ClockConfiguration.PbaNotFasterIff` | Ex-03/AVR32 Template/src/asf/common/services/clock/uc3a3_a4/sysclk.h:819-825 | The PBA is slowed down at least as much as the CPU, which this function asserts and pm_configure_clocks does not test, if and only if the PLL runs at the CPU frequency, or the request is below twice that, or one of two limit cases holds. |
| `ClockConfiguration.DividerLost` | Ex-03/AVR32 Template/src/asf/avr32/drivers/pm/pm_conf_clocks.c:97-149 | From 17 to 15 MHz: success with divider 17, of which a 4-bit field keeps 1. |
| `ClockConfiguration.CpuSelectLost` | Ex-03/AVR32 Template/src/asf/avr32/drivers/pm/pm_conf_clocks.c:112-198 | From 16 to 1 MHz with 2-bit selects: the CPU does not run at 1 MHz. |
| `ClockConfiguration.PbaSelectLost` | Ex-03/AVR32 Template/src/asf/avr32/drivers/pm/pm_conf_clocks.c:159-198 | From 12 to 66 MHz with a PBA request of 100 kHz and 3-bit selects: 64453 Hz is reported, and the PBA runs at 16.5 MHz. |
| `ClockConfiguration.PbaFasterThanCpu` | Ex-03/AVR32 Template/src/asf/common/services/clock/uc3a3_a4/sysclk.h:819-825 | From 16 to 1 MHz with a PBA request of 4 MHz, the PBA is slowed down less than the CPU. |
| `ClockSolver.Search` | Ex-03/AVR32 Template/src/asf/avr32/drivers/pm/pm_conf_clocks.c:97-135 | Finds a setting if and only if one exists; it realises the frequency exactly; one more doubling would overflow the field or reach the VCO limit; the VCO is below its limit if and only if the powers of two exported from the divider alone keep it there. |
| `ClockSolver.FindDivider` | Ex-03/AVR32 Template/src/asf/avr32/drivers/pm/pm_conf_clocks.c:97-105 | The least divider for which the oscillator divides the product, or none below 32, although the loop only multiplies the remainder. |
| `ClockSolver.DividersAreMultiples` | Ex-03/AVR32 Template/src/asf/avr32/drivers/pm/pm_conf_clocks.c:99-103 | The possible dividers are exactly multiples of the least one. |
| `ClockSolver.LeastMultiplier` | Ex-03/AVR32 Template/src/asf/avr32/drivers/pm/pm_conf_clocks.c:107-110 | The multiplier of the least divider fits its field if and only if any setting does. |
| `ClockSolver.NoDivider` | Ex-03/AVR32 Template/src/asf/avr32/drivers/pm/pm_conf_clocks.c:99-105 | Without a divider below 32 nothing reaches the frequency. |
| `ClockSolver.ExportTwos` | Ex-03/AVR32 Template/src/asf/avr32/drivers/pm/pm_conf_clocks.c:112-117 | The odd part of the divider and its power of two. |
| `ClockSolver.RaiseVco` | Ex-03/AVR32 Template/src/asf/avr32/drivers/pm/pm_conf_clocks.c:119-129 | Keeps osc * mul = cpu * div * 2^k; terminates; one more doubling would break a limit. |
| `ClockSolver.VcoFrequency` | Ex-03/AVR32 Template/src/asf/avr32/drivers/pm/pm_conf_clocks.c:123-123 | The integer division in the loop test loses nothing: the VCO runs at cpu * 2^k. |
| `ClockSolver.SearchIsOptimal` | Ex-03/AVR32 Template/src/asf/avr32/drivers/pm/pm_conf_clocks.c:119-129 | No multiplier of the field and no divider at all give the CPU frequency from a faster VCO below the limit. |
| `ClockSolver.FasterNeedsMore` | Ex-03/AVR32 Template/src/asf/avr32/drivers/pm/pm_conf_clocks.c:119-129 | Any setting with a faster VCO needs at least twice the multiplier. |
| `ClockSolver.OddPartDivides` | Ex-03/AVR32 Template/src/asf/avr32/drivers/pm/pm_conf_clocks.c:112-117 | The odd part of the least divider is a lower bound for the divider of every setting. |
| `ClockSolver.PllIsExact` | Ex-03/AVR32 Template/src/asf/avr32/drivers/pm/pm_conf_clocks.c:131-140 | The split into the PLL half and the CPU divider divides without remainder. |
| `ClockSolver.DividePba` | Ex-03/AVR32 Template/src/asf/avr32/drivers/pm/pm_conf_clocks.c:159-167 | For any request, 0 included, the loop terminates, at the first halving that meets or passes the request. |
| `ClockSolver.PbaOptimalIff` | Ex-03/AVR32 Template/src/asf/avr32/drivers/pm/pm_conf_clocks.c:159-170 | The result is the largest halving above neither the request nor the PBA limit: for a request within the limit if and only if it is at most the PLL frequency; for one above the limit if and only if the PLL frequency is above the limit and no halving lies between limit and request. |
| `ClockSolver.PbaLimitIff` | Ex-03/AVR32 Template/src/asf/avr32/drivers/pm/pm_conf_clocks.c:159-170 | For any request, the result is within the PBA limit if and only if every halving below the request is. |
| `ClockSolver.PbaLimitExceeded` | Ex-03/AVR32 Template/src/asf/avr32/drivers/pm/pm_conf_clocks.c:160-167 | A request above the limit can be answered above the limit: PLL 150, request 100, limit 66. |
| `ClockSolver.VcoLimitExceeded` | Ex-03/AVR32 Template/src/asf/avr32/drivers/pm/pm_conf_clocks.c:97-129 | From 20 to 75 MHz with multipliers up to 15 and a VCO limit of 240 MHz, whatever the search finds leaves the VCO at or above its limit, although multiplier 15 and divider 4 keep it at 75 MHz. |
| `HandOff.ServeKeeps` | Ex-09/files/resmgr.c:220-351 | Every handler keeps: messages waiting means no reader is, accepted = delivered + queued in order, recorded readers = answered + waiting in order, both queues within their capacity. |
| `HandOff.RunKeeps` | Ex-09/files/resmgr.c:220-351 | The same over every run of requests. |
| `HandOff.WriteAnswersOldest` | Ex-09/files/resmgr.c:316-351 | A write that finds readers waiting gives its own message to the one that has waited longest. |
| `HandOff.WriteAnswers` | Ex-09/files/resmgr.c:296-351 | A write answers exactly when a reader waits; otherwise it queues its message, or discards it if there is no room. |
| `HandOff.ReadReplies` | Ex-09/files/resmgr.c:236-293 | A read blocks if and only if there is no message and it may wait; it is told that there is none if and only if there is none and it may not wait, which changes nothing; a message told is the oldest and is delivered; only a read that blocks is recorded or forgotten. |
| `HandOff.RepliesAreDelivered` | Ex-09/files/resmgr.c:220-351 | Over every run, the texts of replies and answers are exactly the messages delivered, in order. |
| `HandOff.WritesAnswerRecorded` | Ex-09/files/resmgr.c:316-351 | As many writes as recorded readers wait answer all of those, in arrival order, each with the next message. |
| `HandOff.ForgottenIff` | Ex-09/files/resmgr.c:236-246 | A reader is forgotten (left blocked without a record) exactly when it finds no message, may block, and the ring of ids is full. |
| `HandOff.ReadersRecorded` | Ex-09/files/resmgr.c:236-246 | Of readers that come in while there is no message, exactly as many as there is room for are recorded, in order, and the rest are forgotten. |
| `HandOff.ForgottenNeverAnswered` | Ex-09/files/resmgr.c:220-351 | No run ever answers a forgotten reader, or un-forgets one. |
| `HandOff.DeliveredInOrder` | Ex-09/files/resmgr.c:220-351 | From the empty queue, the readers receive exactly the accepted messages in written order, save those still queued; every write is accepted or discarded; blocked readers are answered in the order they were recorded. |
| `HandOff.RunHistory` | Ex-09/files/resmgr.c:296-319 | The accepted messages are those of the writes that found room. |
| `MessageFifo.Fifo.AddString` | Ex-09/files/fifo.c:29-49 | Appends to a bounded queue, and fails exactly when it is full. |
| `MessageFifo.Fifo.RemString` | Ex-09/files/fifo.c:51-70 | Takes the oldest message into the start of the buffer; an empty queue leaves the buffer alone. |
| `MessageFifo.Fifo.AddBlockedId` | Ex-09/files/fifo.c:72-88 | Appends a nonzero id, and fails exactly when the queue is full. |
| `MessageFifo.Fifo.RemBlockedId` | Ex-09/files/fifo.c:90-110 | Takes the oldest id, or gives -1. |
| `MessageFifo.Fifo.Status` | Ex-09/files/fifo.c:130-140 | Tells whether a message is queued. |
| `MessageFifo.EmptyOrFull` | Ex-09/files/fifo.c:29-70 | The cell markers tell an empty ring from a full one, though head and tail coincide on both. |
| `MessageFifo.AddKeeps` | Ex-09/files/fifo.c:31-47 | Adding keeps the ring, across wrap-around. |
| `MessageFifo.RemKeeps` | Ex-09/files/fifo.c:53-69 | Removing keeps the ring, across wrap-around. |
| `MessageFifo.NoneOrFull` | Ex-09/files/fifo.c:72-110 | A zero cell tells an empty ring of ids from a full one. |
| `MessageFifo.RecordKeeps` | Ex-09/files/fifo.c:74-86 | Recording an id keeps the ring. |
| `MessageFifo.ReleaseKeeps` | Ex-09/files/fifo.c:94-108 | Releasing the oldest id keeps the ring. |
| `MessageFifo.ZeroIdBreaksTheRing` | Ex-09/files/fifo.c:74-86 | An id of zero would leave a ring that stands for no queue. |
| `ResourceManager.Manager.IoRead` | Ex-09/files/resmgr.c:220-294 | Over the rings, refines the abstract read; a second read on the same open file finds the end; a blocked reader's open file keeps offset 0, also when it is answered later. |
| `ResourceManager.Manager.IoWrite` | Ex-09/files/resmgr.c:296-334 | Refines the abstract write; the client is told that its whole string was written even when the queue was full and it was discarded. |
| `ResourceManager.Manager.RespondToBlockedClient` | Ex-09/files/resmgr.c:340-351 | Gives the client the head of the queue; with an empty queue it would give what the buffer holds. |
| `ResourceManager.CStrStops` | Ex-09/files/resmgr.c:307-315 | What follows the terminator in the shared buffer does not matter, so older messages do not show through. |
| `ResourceManager.CStrLongest` | Ex-09/files/resmgr.c:307-315 | The text of a buffer is its longest part without a NUL; so a message without one is passed on whole. |
| `Philosophers.StepOwned` | Ex-02/philo.c:42-96 | Every lock is held by exactly the philosopher whose position says so, through every step. |
| `Philosophers.StepConserved` | Ex-02/philo.c:74-85 | Meals eaten, portions served and portions left add up, through every step. |
| `Philosophers.ReachableInvariant` | Ex-02/philo.c:42-96 | Both hold in every reachable state. |
| `Philosophers.NeighboursNeverEatTogether` | Ex-02/philo.c:63-69 | In no reachable state do two neighbours eat together. |
| `Philosophers.Served` | Ex-02/philo.c:55-85 | A philosopher who takes the last portion, or finds none, leaves without eating; otherwise he goes for the chopsticks. |
| `Philosophers.Hands` | Ex-02/philo.c:63-69 | He takes the right chopstick first and then the left one, and puts the left one down first. |
| `Philosophers.OneRound` | Ex-02/philo.c:55-70 | Left to himself he eats one portion a round, and changes nothing else. |
| `Philosophers.WaitingSpreads` | Ex-02/philo.c:63-64 | In a stuck state, whoever waits for the left chopstick waits for one who does the same. |
| `Philosophers.StuckIff` | Ex-02/philo.c:55-71 | A reachable state has no enabled step if and only if all have finished, or every philosopher holds the right chopstick and waits for the left. |
| `Philosophers.DeadlockReachableIff` | Ex-02/philo.c:55-71 | The deadlock is reachable if and only if there is more food than philosophers (here 50 and 5). |
| `Philosophers.AllFinishedMeals` | Ex-02/philo.c:74-85 | When all have finished, max(food, 1) - 1 meals have been eaten: the last portion is taken but not eaten. |
| `Philosophers.RunsAreBounded` | Ex-02/philo.c:55-85 | No run has more than 8 * food + 3 * n steps. |
| `Philosophers.MaximalRuns` | Ex-02/philo.c:42-96 | Every run that cannot go on has ended well, with all meals eaten, or in the deadlock, with food left and more food than philosophers. |
| `UsbTransfer.PacketKeeps` | Ex-03/AVR32 Template/src/asf/avr32/drivers/usbb/usbb_device.c:1154-1212 | Every packet the IN handler sends keeps the stage, whatever further buffer the callback gives: sent packets are the buffers in order, all full but the one that completes the data. |
| `UsbTransfer.DataPacketKeeps` | Ex-03/AVR32 Template/src/asf/avr32/drivers/usbb/usbb_device.c:1188-1212 | A packet from a buffer with bytes left. |
| `UsbTransfer.LastZlpKeeps` | Ex-03/AVR32 Template/src/asf/avr32/drivers/usbb/usbb_device.c:1163-1171 | The zero-length packet that ends data of a full-packet size. |
| `UsbTransfer.ContinuationKeeps` | Ex-03/AVR32 Template/src/asf/avr32/drivers/usbb/usbb_device.c:1172-1185 | The first packet of a further buffer. |
| `UsbTransfer.DoneIsComplete` | Ex-03/AVR32 Template/src/asf/avr32/drivers/usbb/usbb_device.c:1155-1161 | When the data is done, the packets are exactly the buffers, the last is short, and the others are full if and only if no buffer after the first was empty. |
| `UsbTransfer.StoredContents` | Ex-03/AVR32 Template/src/asf/avr32/drivers/usbb/usbb_device.c:1246-1258 | What is stored is what was received if and only if the packet fits into its buffer. |
| `UsbTransfer.OutKeeps` | Ex-03/AVR32 Template/src/asf/avr32/drivers/usbb/usbb_device.c:1246-1305 | While an OUT stage goes on, in the same buffer or the next, the buffers hold the packets received, and the counter stays within the buffer. |
| `UsbTransfer.OutEnds` | Ex-03/AVR32 Template/src/asf/avr32/drivers/usbb/usbb_device.c:1260-1304 | When the OUT stage goes on, when it asks for a buffer, and what the buffers hold when it ends. |
| `UsbControl.InSentKeeps` | Ex-03/AVR32 Template/src/asf/avr32/drivers/usbb/usbb_device.c:1134-1220 | The IN handler keeps the endpoint invariant. |
| `UsbControl.OutReceivedKeeps` | Ex-03/AVR32 Template/src/asf/avr32/drivers/usbb/usbb_device.c:1223-1313 | The OUT handler keeps it. |
| `UsbControl.SetupReceivedKeeps` | Ex-03/AVR32 Template/src/asf/avr32/drivers/usbb/usbb_device.c:1068-1131 | The SETUP handler keeps it, in every state it may abort. |
| `UsbControl.StepKeeps` | Ex-03/AVR32 Template/src/asf/avr32/drivers/usbb/usbb_device.c:1399-1439 | Every event keeps it. |
| `UsbControl.InStageCompletes` | Ex-03/AVR32 Template/src/asf/avr32/drivers/usbb/usbb_device.c:1154-1162 | When the OUT handshake is awaited because the data is complete, the packets sent are the buffers adopted, the last is short, and the rest are full if and only if no continuation was empty (section 8.5.3.2 of the USB 2.0 specification). |
| `UsbControl.EveryInStageCompletes` | Ex-03/AVR32 Template/src/asf/avr32/drivers/usbb/usbb_device.c:1134-1220 | The same at the end of every run of events from power-on. |
| `UsbControl.OutPacket` | Ex-03/AVR32 Template/src/asf/avr32/drivers/usbb/usbb_device.c:1246-1305 | The stage goes on if and only if the packet is full-size, fits, leaves data to come, and finds room or another buffer; when it ends, all data is stored if and only if the last packet did not straddle two buffers. |
| `UsbControl.EveryOutStageHolds` | Ex-03/AVR32 Template/src/asf/avr32/drivers/usbb/usbb_device.c:1223-1313 | In every run, during an OUT stage the buffers hold exactly the packets received and the count stays within the buffer. |
| `UsbControl.AdoptedIff` | Ex-03/AVR32 Template/src/asf/avr32/drivers/usbb/usbb_device.c:1145-1185 | The IN handler goes on in a further buffer if and only if the present one is sent, ended in a full packet and is not closed yet, the host has been given all it asked for, and the callback is there and gives one. |
| `UsbControl.EveryInStageServesFirstBuffer` | Ex-03/AVR32 Template/src/asf/avr32/drivers/usbb/usbb_device.c:1134-1220 | In every run, of what an IN stage has sent, the bytes the host asked for come from the first buffer alone. |
| `UsbTransfer.FirstBufferServes` | Ex-03/AVR32 Template/src/asf/avr32/drivers/usbb/usbb_device.c:1154-1185 | The same for the data of one stage. |
| `UsbCounterexamples.SecondBufferNotTaken` | Ex-03/AVR32 Template/src/asf/avr32/drivers/usbb/usbb_device.c:1163-1171 | A run from power-on: the host asks for 16 bytes, the buffer has 8, a second one is on offer; a full and a zero-length packet are sent, and the data is done. |
| `UsbControl.SecondBufferComesTooLate` | Ex-03/AVR32 Template/src/asf/avr32/drivers/usbb/usbb_device.c:1163-1171 | In every run, a second IN buffer is adopted only when the first one alone holds all the bytes the host asked for. |
| `UsbCounterexamples.EmptyContinuationEndsEarly` | Ex-03/AVR32 Template/src/asf/avr32/drivers/usbb/usbb_device.c:1163-1185 | A run from power-on with an empty continuation: a full packet with all that the host asked for, a zero-length packet, and then another data packet. |
| `UsbCounterexamples.StraddlingPacketLosesTail` | Ex-03/AVR32 Template/src/asf/avr32/drivers/usbb/usbb_device.c:1246-1281 | A run from power-on in which 8 bytes come for a buffer of 4: 4 are stored, and the transfer is acknowledged. |
| `UsbControl.StepCalls` | Ex-03/AVR32 Template/src/asf/avr32/drivers/usbb/usbb_device.c:1390-1439 | The completion callback runs exactly when one is installed and the event ends the request. |
| `UsbControl.CallbacksRunOnce` | Ex-03/AVR32 Template/src/asf/avr32/drivers/usbb/usbb_device.c:1047-1079 | Over every run of events, callbacks run in request order, so none runs twice. |
| `UsbControl.LaterCalls` | Ex-03/AVR32 Template/src/asf/avr32/drivers/usbb/usbb_device.c:1399-1439 | Once its callback is no longer installed, no run calls back for a request again. |
| `UsbControl.NeverAfterInitialisation` | Ex-03/AVR32 Template/src/asf/avr32/drivers/usbb/usbb_device.c:1047-1065 | After reinitialisation (also by a bus reset, lines 411-423) no run ever calls back for an earlier request. |
| `UsbControl.StatusStageRunsCallback` | Ex-03/AVR32 Template/src/asf/avr32/drivers/usbb/usbb_device.c:1145-1151 | A callback still installed when the status stage completes normally (also lines 1229-1245) runs then, and the endpoint is ready for the next request. |
| `UsbControl.StalledRequestRunsCallback` | Ex-03/AVR32 Template/src/asf/avr32/drivers/usbb/usbb_device.c:1073-1100 | The callback also runs for a request that was stalled as unknown, when the next SETUP packet arrives. |
| `UsbProtocol.SetupStalls` | Ex-03/AVR32 Template/src/asf/avr32/drivers/usbb/usbb_device.c:1080-1101 | Bytes that are no SETUP packet, and an unknown request, are stalled. |
| `UsbProtocol.SetupDecodes` | Ex-03/AVR32 Template/src/asf/avr32/drivers/usbb/usbb_device.c:1084-1096 | The direction is the top bit of the first byte, and the length has the seventh byte below the eighth. |
| `UsbProtocol.NoDataSetup` | Ex-03/AVR32 Template/src/asf/avr32/drivers/usbb/usbb_device.c:1114-1120 | A known request without data is answered with a zero-length IN packet, the IN interrupt armed. |
| `UsbProtocol.NoDataRequest` | Ex-03/AVR32 Template/src/asf/avr32/drivers/usbb/usbb_device.c:1114-1151 | From any state: when the host has taken that packet, the callback runs, and the endpoint awaits the next SETUP packet. |
| `UsbProtocol.OutSetup` | Ex-03/AVR32 Template/src/asf/avr32/drivers/usbb/usbb_device.c:1121-1130 | A known request with data to come awaits OUT packets in the buffer given. |
| `UsbProtocol.InSetup` | Ex-03/AVR32 Template/src/asf/avr32/drivers/usbb/usbb_device.c:1104-1113 | A known IN request sends the first bytes of the buffer given, unless an OUT packet has come meanwhile. |
| `UsbProtocol.StatusStageEnds` | Ex-03/AVR32 Template/src/asf/avr32/drivers/usbb/usbb_device.c:1145-1151 | The end of the status stage leaves the endpoint as after power-on. |
| `UsbProtocol.InPacketTaken` | Ex-03/AVR32 Template/src/asf/avr32/drivers/usbb/usbb_device.c:1154-1220 | After each IN packet: the next bytes of the buffer, the OUT handshake when the data is done, or the host turning to it early. |
| `UsbProtocol.OutPacketTaken` | Ex-03/AVR32 Template/src/asf/avr32/drivers/usbb/usbb_device.c:1246-1313 | After each OUT packet: when the data is complete, acknowledged or stalled by the callback; otherwise the same buffer, the next one, or a stall; and what of the packet is kept. |
| `UsbProtocol.OutPacketElsewhere` | Ex-03/AVR32 Template/src/asf/avr32/drivers/usbb/usbb_device.c:1229-1245 | An OUT packet outside an OUT stage makes the endpoint ready, and stalls unless it ends an IN request. |
| `UsbProtocol.InRefused` | Ex-03/AVR32 Template/src/asf/avr32/drivers/usbb/usbb_device.c:1316-1330 | A refused IN token ends an OUT stage, or is stalled in the OUT handshake, unless OUT data has come; nothing else changes. |
| `UsbProtocol.OutRefused` | Ex-03/AVR32 Template/src/asf/avr32/drivers/usbb/usbb_device.c:1333-1346 | Refused OUT data is stalled in the IN handshake, unless that is through already; nothing else changes. |
| `UsbProtocol.OtherEvents` | Ex-03/AVR32 Template/src/asf/avr32/drivers/usbb/usbb_device.c:411-423 | A bus reset makes the endpoint ready without a callback. |
| `UsbProtocol.EveryRunArms` | Ex-03/AVR32 Template/src/asf/avr32/drivers/usbb/usbb_device.c:1134-1220 | In every run, the IN interrupt is armed exactly while an IN packet is under way, so the endpoint never waits for an interrupt that is off. |
| `UsbDriver.ControlEndpoint.PrepareBuffer` | Ex-03/AVR32 Template/src/asf/avr32/drivers/usbb/usbb_device.c:1154-1190 | Over payload memory and 16-bit counters: the buffer and length of the next packet, within the size of the buffer. |
| `UsbDriver.ControlEndpoint.FillBank` | Ex-03/AVR32 Template/src/asf/avr32/drivers/usbb/usbb_device.c:1208-1212 | Byte by byte with an 8-bit index, the bank receives the next slice of the payload buffer; nothing beyond its size is read. |
| `UsbDriver.ControlEndpoint.InSent` | Ex-03/AVR32 Template/src/asf/avr32/drivers/usbb/usbb_device.c:1134-1220 | Refines the IN step, on what the memory below the payload size stands for, and writes no memory of the application. |
| `UsbDriver.ControlEndpoint.ReadBank` | Ex-03/AVR32 Template/src/asf/avr32/drivers/usbb/usbb_device.c:1246-1258 | Byte by byte, stores what fits of a packet in memory; every other byte of memory stays. |
| `UsbDriver.ControlEndpoint.OutReceived` | Ex-03/AVR32 Template/src/asf/avr32/drivers/usbb/usbb_device.c:1223-1313 | Refines the OUT step, also when the callback gives the same memory again; outside a data stage no memory is written, and in one only the bytes the packet belongs in. |
| `UsbDriver.ControlEndpoint.Decode` | Ex-03/AVR32 Template/src/asf/avr32/drivers/usbb/usbb_device.c:1086-1093 | Byte by byte, copies the SETUP packet and decodes direction and length from it. |
| `UsbDriver.ControlEndpoint.SetupReceived` | Ex-03/AVR32 Template/src/asf/avr32/drivers/usbb/usbb_device.c:1068-1131 | Refines the SETUP step. |
| `UsbDriver.ControlEndpoint.TakeInterrupt` | Ex-03/AVR32 Template/src/asf/avr32/drivers/usbb/usbb_device.c:1399-1439 | Refines one event and keeps the invariant, which asks of memory only that the bytes still to be sent are left alone; the assertion of line 1152 never fails; no interrupt writes memory from the payload size on; bytes received stay in memory as they came. |
| `UsbDriver.ControlEndpoint.MemoryMayChange` | Ex-03/AVR32 Template/src/asf/avr32/drivers/usbb/usbb_device.c:1154-1185 | Between interrupts the application may write any memory but the bytes still to be sent; so a callback may refill the buffer just sent and give it again. |

## Left out

- Flash registers, ready polling, wait states, the security bit, region locks (`flashc_lock_all_regions`) and
  `flashc_erase_all`. Lock and programming errors are arbitrary bits a command may raise; that a command which raises
  one has no effect, and that a store to the array designates its page, are assumptions of the hardware model.
- FlashHardware.BurnCells: that a write over words that are not erased ANDs them is an assumption; flashc.h (lines
  991-995) warns that the value may differ. What the writers are proved to do without erase over such words rests on it.
- Flash geometry: both areas lie on one side of 2^31, because the page end is computed with a signed minimum (flashc.c,
  lines 772-774 and 942-944); the User page is as large as a page, a page is a multiple of 8 bytes, both areas are page-aligned and
  the array comes first. Addresses do not wrap around at 2^32. The source of a copy is not in flash.
- Alignment masks are remainders of Euclidean division, which agrees with the masks for powers of two.
- Bootloader.SetProtectedSize: the supported sizes are below 2^31, because the original compares them with a signed
  minimum.
- GpFuses.SetBitfield: width below 2^31 (the header documents 0 to 64), because the original takes a larger one for a
  negative number in its minimum; the same holds for the next two.
- GpFuses.WriteBitfield: width below 2^31.
- GpFuses.EraseBitfield: width below 2^31; with a check the width is below 64, because the original shifts a 64-bit value by the width,
  which C leaves undefined at 64.
- GpFuses.BitfieldRoundTrip: width below 64, for the same reason in the read.
- FlashHardware.FlashController.IssueCommand: page numbers fit the field of the command register.
- The smaller fuse and lock helpers built from one call each (external privileged fetch, region queries).
- ClockConfiguration.ConfigureClocks: oscillator and CPU frequency are positive and small enough that no 32-bit product of the
  search wraps around; with a zero oscillator frequency the original divides by zero, and with a zero CPU frequency its
  doubling loop does not end. Shifts by 31 and more in the PBA loop are
  taken as powers of two. The write order of the registers, oscillator start-up, PLL lock waiting and the high-speed
  flash commands of one part variant are not modelled. The widths of the register fields are parameters: the part's register
  header is not part of this model.
- `pm_configure_usb_clock`, and the solver of `power_clocks_lib.c`, which repeats this one.
- MessageFifo.Fifo.AddBlockedId: the id is not zero, because zero marks an empty cell (ZeroIdBreaksTheRing shows why).
- ResourceManager.Manager.IoRead: the client id is neither 0 nor -1; QNX receive ids are positive.
- Handlers are atomic, as the single dispatch loop runs them; with several dispatch threads the read handler would record
  its client after it has released the mutex (`Ex-09/files/resmgr.c`, lines 238-244). Message passing, printing and the
  mutex are left out, as are the `str` and `count` devices and a client buffer smaller than a message.
- UsbControl: sleep mode, interrupt masking, DPRAM timing, the acknowledge registers and the hardware's own clearing of
  the stall handshake.
- Bulk, interrupt and isochronous endpoints with their DMA jobs, `udd_ep_wait_stall_clear` and the sleep-lock balance.
- UsbDriver.ControlEndpoint.OutReceived: a callback changes no variable of the driver but the payload pointer and size,
  and those only when it returns true to give a further buffer.
- UsbDriver.ControlEndpoint.TakeInterrupt: an application that changes bytes of an IN buffer that are still to be sent.
- Philosophers: the threads are steps of a transition function on values, not imperative threads, so that a theorem can
  speak of every interleaving; sleeping and printing are left out, and there are at least two philosophers.
- `linked_list.c`, whose insertion does not keep the back links; the UDP client, the control loop, the kernel module and
  the pin and interrupt drivers.
