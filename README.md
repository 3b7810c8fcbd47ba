# fastboot3DS core, modelled in Dafny

fastboot3DS is a boot loader for the Nintendo 3DS. This project models five
parts of its ARM9 and ARM11 code and proves properties about them.

- **FIRM images** (`firm.dfy`, module `Firm`). A FIRM image is a 0x200-byte
  header followed by up to four sections. The module covers three things:
  - how `firm_size` works out the bytes an image occupies;
  - how `firm_verify` accepts or rejects an image. It checks the header
    gates, the section bounds, the overlap test against the table of
    protected memory areas, and the SHA-256 digest of each section;
  - how the CPU branch of the launch stub copies a section to its load
    address.
- **Writing FIRM partitions** (`firmwriter.dfy`, module `FirmWriter`).
  `writeFirmPartition` checks its target, optionally replaces the RSA
  signature with the sighax NAND signature, then writes the image block by
  block and reads each block back for comparison. `loadVerifyUpdate` checks an
  update image in a fixed order: the NAND, the FIRM, the signature, the
  "fastboot3DS" magic, the installation in `firm0`, and the version. The NAND
  is a class `Nand` with a byte map and sector read and write methods; a
  driver's success or failure is left open.
- **The ARM9 side of the PXI link** (`pxi.dfy`, module `Pxi`). The class
  `Channel` holds:
  - the send and receive FIFOs, 16 words deep, with their sticky error flag;
  - the latched word counts of the sync register;
  - the halted flag that `panic()` sets.

  `PXI_sendCmd` and the interrupt handler are methods on it.
- **Menu text helpers** (`menu_util.dfy`, module `MenuUtil`). These model
  `mallocpyString`, `truncateString`, `formatBytes`, `keysToString`,
  `stringGetHeight`, `stringGetWidth` and `stringWordWrap`. A string is
  `seq<char>` up to its terminating NUL. `stringWordWrap` works in place on a
  `char` array.
- **Shared value types** (`types.dfy`, module `Types`): `Option`, C's
  `u32`/`u64`, and little-endian words.

Each imperative routine is a method with a loop and invariants. It is proved
against a specification function, and properties of that function are proved
as lemmas. Some of the code calls routines that are not modelled:
- the SHA engine and RSA verification;
- the partition table lookups;
- `loadVerifyFirm`;
- the IPC command decoder and `IPC_handleCmd`.

Each of these becomes a function-valued or plain parameter of the member
that calls it.

Four behaviours of the code as written are worth knowing. The proofs make
them explicit:
- `firm_size` counts a section only when its offset is above every nonempty
  section scanned before it. Sections are scanned from the last to the first.
  A section that overlaps a later one in the file is therefore ignored
  (`Firm.StaleSectionIgnoredExample`).
- The CPU copy loop of the launch stub copies words in groups of four. It
  copies `size / 4` words rounded up to a multiple of four, so up to three
  words past the section's end (`Firm.CpuCopyWords`). The overlap test lets
  a section end exactly where a protected area starts, so those extra words
  can land in the area (`Firm.CpuCopyOverrunsAdjacentArea`, see Findings).
- The PXI handler compares the command's inline parameter count with the
  word count the sender latched, not with the command's whole buffer size.
  The ARM11 sender is not part of this model. Suppose it latches the number
  of words it sends, as the ARM9's `PXI_sendCmd` does (pxi.c:71). Then a
  request is dispatched exactly when its command has no in or out buffers
  and its parameter count equals the words sent
  (`Pxi.LatchedRequestDispatch`). A sender that latches the parameter count
  instead is not covered by this lemma.
- `formatBytes` multiplies by 100 in 64 bits. From 2^64 / 100 bytes upward
  the product wraps, and the printed size is wrong
  (`MenuUtil.BytesTextWrapExample`).

## Model

| member | source | states |
|---|---|---|
| Firm.ParseHeader | source/arm9/firm.c:76-84 | the header read from the load buffer has a 4-byte magic and four section entries, each laid out at its fixed place in the 0x200-byte header |
| Firm.ParseSection | source/arm9/firm.c:84 | a section entry carries a 32-byte SHA-256 digest |
| Firm.MaxOffsetFromIsMax | source/arm9/firm.c:82-92 | the running offset of the reverse scan is an upper bound of every nonempty section offset above k, and is either 0 or such an offset |
| Firm.ScanTestIsCounted | source/arm9/firm.c:86-92 | the scan's two skip tests (zero size, offset not above the running offset) let section k through exactly when its offset is above 0 and above every nonempty later section's offset |
| Firm.CountedOffsetsIncrease | source/arm9/firm.c:82-92 | in scan order (section 3 down to section 0) each counted section has a higher offset than every counted section scanned before it |
| Firm.ScannedLengthIsUpperBound | source/arm9/firm.c:77-98 | the length accumulated by the scan is at least the header size and at least the end of every counted section |
| Firm.ScannedLengthIsAttained | source/arm9/firm.c:77-98 | the accumulated length is the header size or the end of a counted section |
| Firm.ScannedFitsIff | source/arm9/firm.c:94-101 | the scan never fails exactly when every counted section has size and offset below FIRM_MAX_SIZE and ends within it |
| Firm.FirmSize | source/arm9/firm.c:74-107 | succeeds exactly when every counted section fits the load buffer; on success the size is the least length covering the header and every counted section, between 0x200 and FIRM_MAX_SIZE; on failure the size is 0 |
| Firm.Unfits | source/arm9/firm.c:94-95 | a counted section that does not fit the load buffer makes firm_size fail |
| Firm.EmptyHeaderNeedsHeaderOnly | source/arm9/firm.c:77-104 | with all four sections empty nothing is counted and the size is exactly the header size |
| Firm.RequiredSizeUnique | source/arm9/firm.c:97-104 | the size firm_size reports is determined uniquely by the header |
| Firm.SingleSectionExample | source/arm9/firm.c:74-107 | a single section of 0x400 bytes at offset 0x200 gives size 0x600 |
| Firm.StaleSectionIgnoredExample | source/arm9/firm.c:89-90 | a section whose offset is below a later scanned section's offset is skipped even when it is huge: the size is 0x1200, not 0x100800 |
| Firm.ConflictsIffIntersect | source/arm9/firm.c:233-242 | without u32 wrap-around, the three-way overlap test rejects a section exactly when its half-open address range intersects the protected area; touching at the boundary is allowed, starting at the area's address is not |
| Firm.ProtectedAreasWellFormed | source/arm9/firm.c:46-71 | the table has eight areas, each of positive size and none wrapping past 2^32 |
| Firm.FindConflict | source/arm9/firm.c:224-251 | the loop over the protected areas reports a conflict exactly when some area fails the overlap test |
| Firm.CheckSection | source/arm9/firm.c:223-263 | the placement check and (unless skipped) the digest comparison of one in-bounds section yield that section's verdict |
| Firm.VerifySections | source/arm9/firm.c:198-264 | the section loop accepts exactly when every nonempty section is in bounds, well placed and (unless skipped) has a matching digest, and it hashes the nonempty sections in index order up to the first out-of-bounds one |
| Firm.FirmVerify | source/arm9/firm.c:169-267 | the result is the image's validity: size and magic gates, nonzero ARM9 entry, then every nonempty section valid; the sections digested are exactly those reached before an early return |
| Firm.HashedBelowIff | source/arm9/firm.c:198-256 | a section is hashed exactly when it is nonempty, in bounds and every earlier nonempty section is in bounds; hashing is in ascending index order |
| Firm.HashedStopsAtBadSection | source/arm9/firm.c:209-221 | an out-of-bounds section ends the loop: no later section is hashed |
| Firm.DigestMismatchRejects | source/arm9/firm.c:253-262 | when hash checking is on, one nonempty section whose digest differs from its header entry makes the image invalid |
| Firm.AcceptedSectionsAreSafe | source/arm9/firm.c:209-251 | every nonempty section of an accepted image lies inside fwSize, after the header, and its address range intersects no protected area; a range that wraps past 2^32 is split into its piece up to 2^32 and its piece from 0, and neither piece meets a protected area |
| Firm.CpuCopyWords | source/arm9/firm.c:138 | the CPU loop copies a multiple of four words, at least size/4 and fewer than size/4 + 4 |
| Firm.CpuCopy | source/arm9/firm.c:135-144 | the destination's first CpuCopyWords(size) words become the source's, and the rest are unchanged |
| Firm.CpuCopyOverrunsAdjacentArea | source/arm9/firm.c:233-242 | a section ending exactly where a protected area starts passes the overlap test, yet when `size / 4` is not a multiple of four the CPU loop (firm.c:138) writes 4 to 12 bytes past its end, into the area |
| Firm.CpuCopyIntoStackExample | source/arm9/firm.c:138-144 | a 0x14-byte section copied by the CPU to 0x14 bytes below the ARM9 stack passes every placement test, yet the loop writes 0x20 bytes, reaching into the stack |
| Firm.CpuCopyCorrected | source/arm9/firm.c:138-144 | the loop bounded word by word copies the section's first `size / 4` words and leaves the rest of the destination unchanged |
| Firm.CorrectedCopyIsSafe | source/arm9/firm.c:138-144 | with the corrected loop the bytes written for a section of an accepted image lie within its declared range and meet no protected area |
| Firm.StubCopySection | source/arm9/firm.c:119-145 | an empty section is skipped, copy methods 0 and 1 go to NDMA and leave the destination to the hardware, method 2 and above are copied by the CPU loop |
| FirmWriter.Nand.WriteSectors | source/arm9/firmwriter.c:101 | a sector write changes NAND bytes only inside the sectors addressed; what they hold afterwards is not promised, which is why the writer reads them back |
| FirmWriter.Nand.ReadSectors | source/arm9/firmwriter.c:102 | a successful read fills the buffer's first count sectors with the NAND's bytes; the rest of the buffer is unchanged |
| FirmWriter.NandSignature | source/arm9/firmwriter.c:32-74 | each of the two sighax NAND signatures is 0x100 bytes |
| FirmWriter.WithSignatureKeepsHeader | source/arm9/firmwriter.c:91-92 | replacing bytes 0x100-0x1FF with the signature keeps the image length, changes no other byte and leaves every parsed header field as it was |
| FirmWriter.BlockLength | source/arm9/firmwriter.c:97 | a block covers what is left of the image, but at most FIRMWRITER_BLK_SIZE bytes |
| FirmWriter.WholeSectors | source/arm9/firmwriter.c:101-113 | a length cut down to whole 512-byte sectors is a multiple of 512, at most the length and within 512 of it |
| FirmWriter.WriteBlock | source/arm9/firmwriter.c:99-111 | one block's write, read-back and compare return 0, -7 or -8: -7 exactly when the write or the read-back fails, -8 exactly when both succeed and the read-back differs from the image; only the sectors written change, and on 0 they hold the block's bytes |
| FirmWriter.WriteImage | source/arm9/firmwriter.c:97-116 | the write loop as written changes only the bytes from the partition start up to the image size cut down to whole sectors; on success those bytes hold the image; on -7 or -8 the failing block starts at a block boundary inside the image, every earlier block holds the image, nothing past the failing block changes, and on -8 the failing block's read-back differs from the image |
| FirmWriter.WriteNextBlock | source/arm9/firmwriter.c:97-113 | one pass of the loop as written, with the image bytes before the block already on the NAND: on 0 the next sector follows the whole sectors written, and the bytes written so far hold the image, with nothing changed past them; a failure is reported at this block's offset, with -8 only when the read-back mismatched |
| FirmWriter.WriteNextBlockRounded | source/arm9/firmwriter.c:97-113 | the same pass with the block rounded up to whole sectors; after the last block the whole image is on the NAND |
| FirmWriter.WriteImageRounded | source/arm9/firmwriter.c:97-116 | the corrected loop rounds the last block up to whole sectors; on success the whole image, tail included, is on the NAND; on failure it gives the same facts about the failing block and the blocks before it as the loop as written |
| FirmWriter.UnalignedImageExample | source/arm9/firmwriter.c:97-116 | an image with one 0x10-byte section at 0x200 needs 0x210 bytes; the loop as written stores only 0x200 of them, while rounding up writes 0x400 |
| FirmWriter.TargetStatus | source/arm9/firmwriter.c:80-85 | the gates return -1 for a non-"firm" name, -2 for an inactive NAND, -3 for a missing partition index, -4 for a missing sector offset, 0 otherwise |
| FirmWriter.WriteFirmPartition | source/arm9/firmwriter.c:78-121 | returns the first failing gate (-1 to -6) or the write loop's status; the NAND is untouched on -1 to -6; -5 exactly when the size scan fails, -6 exactly when the compare buffer is missing; the buffer gets the sighax signature when asked; the write loop as written changes only the partition's bytes up to the image size cut down to whole sectors, and on 0 those bytes hold the image's bytes (a trailing partial sector is not written, see Findings); on -7 or -8 the blocks before the failing one hold the image and nothing past it changes |
| FirmWriter.PackVersion | source/arm9/firmwriter.c:165 | the packed version keeps the major number in the high half-word and the minor in the low |
| FirmWriter.PackVersionOrder | source/arm9/firmwriter.c:165 | packed versions compare as (major, minor) pairs in lexicographic order |
| FirmWriter.LoadVerifyUpdate | source/arm9/firmwriter.c:123-168 | the status is the verdict of the checks in the source's order, the firm0 sector read is the one at partition start + 1, and the version is reported once the magic check has passed |
| FirmWriter.CheckInstalled | source/arm9/firmwriter.c:144-167 | the firm0 lookups, allocation, sector read, magic and version checks give -5, -6, -7, -8, not installed, downgrade or 0 in that order |
| FirmWriter.UpdateVerdictNamesFirstFailure | source/arm9/firmwriter.c:125-167 | each of -1 to -8, not installed and downgrade is returned exactly when its check is the first to fail, and 0 exactly when all pass |
| FirmWriter.DowngradeIffOlder | source/arm9/firmwriter.c:165-167 | once fastboot3DS is found installed, the update is refused as a downgrade exactly when its version is below the running build |
| FirmWriter.VersionExamples | source/arm9/firmwriter.c:165 | 1.0 is a downgrade from 1.1; 1.2 and 2.0 are accepted over 1.1 and 1.65535 |
| FirmWriter.NotInstalledWithoutMagic | source/arm9/firmwriter.c:156-161 | without the magic in firm0's second sector the update is refused as not installed, whatever its version |
| Pxi.Fill | source/arm9/hardware/pxi.c:67-68 | words pushed into a 16-deep FIFO are appended while room is left and the rest are dropped; what was queued is kept |
| Pxi.FillStep | source/arm9/hardware/pxi.c:68-69 | pushing words one at a time leaves the same FIFO and the same sticky error as pushing them together |
| Pxi.HandlerArgs | source/arm9/hardware/pxi.c:47-55 | the handler's arguments are the cmdBufSize words that follow the command word, at most 15 of them |
| Pxi.LatchedRequestDispatch | source/arm9/hardware/pxi.c:47-71 | a request sent with `words` latched passes the handler's checks exactly when its command has no in or out buffers and its parameter count equals `words`; the handler then gets exactly the sent words |
| Pxi.Channel.Push | source/arm9/hardware/pxi.c:67-68 | a write to the send register queues the word if there is room and otherwise sets the sticky error flag; nothing else changes |
| Pxi.Channel.Pop | source/arm9/hardware/pxi.c:55 | a read of the receive register takes the FIFO's head, or sets the error flag when it is empty |
| Pxi.Channel.PushRequest | source/arm9/hardware/pxi.c:67-68 | writing the command word and then the argument words leaves the send FIFO filled with the request, and the error flag set exactly when it was already set or the request did not fit |
| Pxi.Channel.SendCmd | source/arm9/hardware/pxi.c:61-75 | the request is queued; the channel halts exactly when the error flag was set or the request overflowed the FIFO; otherwise the error flag is clear, the word count is latched, the peer is notified and the reply is the receive FIFO's head |
| Pxi.Channel.HandleIrq | source/arm9/hardware/pxi.c:41-59 | the handler panics exactly on a size or latched-count mismatch or a FIFO error; otherwise it consumes the command and its arguments and queues the handler's reply |
| MenuUtil.MallocCopy | source/arm11/menu/menu_util.c:29-36 | a NUL-terminated copy is returned exactly when allocation succeeds, in a fresh buffer |
| MenuUtil.TruncateString | source/arm11/menu/menu_util.c:38-56 | a negative size writes nothing; sizes 1-3 keep a prefix of size-1; a string that fits is kept; otherwise the result is exactly nsize long: a prefix of min(tpos, nsize-3), "...", and the string's tail |
| MenuUtil.TruncateIdempotent | source/arm11/menu/menu_util.c:48-55 | truncating an already truncated string to the same size changes nothing |
| MenuUtil.Decimal | source/arm11/menu/menu_util.c:65-72 | `%llu` prints at least one digit and no leading zero |
| MenuUtil.DecimalRoundTrip | source/arm11/menu/menu_util.c:65-72 | the printed digits read back as the number |
| MenuUtil.DecimalLength | source/arm11/menu/menu_util.c:65-72 | a number below 10^k prints in at most k digits |
| MenuUtil.UnitScale | source/arm11/menu/menu_util.c:69-71 | the unit loop stops at the first scale whose value is below 1024.00, or at GiB |
| MenuUtil.BytesTextFits | source/arm11/menu/menu_util.c:60-72 | every output fits the 32-byte buffer with its NUL |
| MenuUtil.IntegerPartRange | source/arm11/menu/menu_util.c:68-72 | without wrap-around, sizes of 1024 bytes and more print an integer part of at least 1, and below 1024 unless in GiB |
| MenuUtil.BytesTextWrapExample | source/arm11/menu/menu_util.c:70 | 184467440737095517 bytes print as "0.0 kiB" because `bytes * 100` wraps |
| MenuUtil.FormatBytes | source/arm11/menu/menu_util.c:58-74 | the text written is the formatted size with its unit, and it fits the 32-byte buffer |
| MenuUtil.KeysToString | source/arm11/menu/menu_util.c:81-95 | the text is the names of the pressed buttons in table order, each in brackets, joined by "+", or "(no buttons)" |
| MenuUtil.HighBitsIgnored | source/arm11/menu/menu_util.c:85-87 | bits above the twelve named buttons do not change the text |
| MenuUtil.NoButtonsIff | source/arm11/menu/menu_util.c:93-94 | the text is "(no buttons)" exactly when none of the twelve buttons is pressed |
| MenuUtil.FindNewline | source/arm11/menu/menu_util.c:100 | strchr finds the first '\n' at or after the start, or reports none |
| MenuUtil.LastNewline | source/arm11/menu/menu_util.c:110-113 | the last '\n' of the string, or none |
| MenuUtil.StringGetHeight | source/arm11/menu/menu_util.c:97-103 | the height is one more than the number of '\n' in the string |
| MenuUtil.HeightIsLineCount | source/arm11/menu/menu_util.c:97-103 | that height is the number of lines the string splits into |
| MenuUtil.WidestIsLongest | source/arm11/menu/menu_util.c:105-117 | the intended width is at least every line's length and equals some line's length |
| MenuUtil.MeasuredWidth | source/arm11/menu/menu_util.c:110-115 | the width as measured is at least the first line's length and at least every later line's length plus one |
| MenuUtil.StringGetWidth | source/arm11/menu/menu_util.c:105-117 | the loop as written returns the measured width, in which every line after the first counts the '\n' before it |
| MenuUtil.WidthOvercountExample | source/arm11/menu/menu_util.c:110-115 | "a\nb" has lines of length 1 but measures 2 |
| MenuUtil.StringGetWidthCorrected | source/arm11/menu/menu_util.c:105-117 | the corrected loop returns the length of the longest line |
| MenuUtil.WidthOfOneLine | source/arm11/menu/menu_util.c:114-115 | for a string without '\n' both widths are its length |
| MenuUtil.WrapStep | source/arm11/menu/menu_util.c:124-135 | one turn of the loop at a character other than NUL writes nothing after the current position and keeps the last break and last space at or before it |
| MenuUtil.WrapStepKeeps | source/arm11/menu/menu_util.c:124-135 | a turn keeps what the loop knows: the lines closed so far fit, the piece before the last space fits, and no space or newline is pending after them; a newline counts only in the corrected loop |
| MenuUtil.WrapChangesOnlySpaces | source/arm11/menu/menu_util.c:119-138 | both loops change only spaces, and only into '\n'; the length and every other character, the terminator included, are kept |
| MenuUtil.WrapShortUnchanged | source/arm11/menu/menu_util.c:125 | a string shorter than the line length is left as it is |
| MenuUtil.WrapFits | source/arm11/menu/menu_util.c:119-138 | for text without a '\n' of its own, every line of the result is shorter than the line length or has no space to break at |
| MenuUtil.NewlineOverrunExample | source/arm11/menu/menu_util.c:135 | "a bc\n" with line length 3 comes back unchanged although its first line is too long and has a space; the corrected loop breaks it |
| MenuUtil.WrapCorrectedFits | source/arm11/menu/menu_util.c:119-138 | with the length also checked at existing newlines, every line of the result fits, whatever the text |
| MenuUtil.StringWordWrap | source/arm11/menu/menu_util.c:119-138 | the loop over the array leaves in it exactly what `Wrap` gives for the old contents, so the properties above hold of the array |

## Left out

- The NDMA branch of the launch stub (source/arm9/firm.c:126-131), the wait for the DMA channels, the PXI handshake and the jump to the entry points (148-166), and `firm_launch` (269-285): these are hardware transfers and control transfer, with no data the model could follow.
- Firm.StubCopySection: models one pass of the stub's loop over the four sections (firm.c:117-146), not the loop itself; the model does not follow a later section's copy overwriting an earlier section's destination.
- SHA-256, RSA key setup and verification, `loadVerifyFirm`, `partitionGetIndex` and `partitionGetSectorOffset` are not part of this model. They are parameters: a digest function, a signature verdict, a load result and a partition table.
- The `uiPrint*` messages of `firm_verify` are not modelled; `printInfo` has no effect on the verdict.
- mem_map.h, firm.h, firmwriter.h, pxi.h and ipc_handler.h are not part of this model. The constants they define are chosen here: FIRM_MAX_SIZE 0x400000, FIRMWRITER_BLK_SIZE 0x20000, IPC_MAX_PARAMS 15, the UPDATE_ERR_* codes, the memory map of the protected areas and the FIRM header layout. No proof depends on their values beyond the stated bounds.
- The bit layout of an IPC command word is a `decode` parameter, and `IPC_handleCmd` is a `handle` parameter.
- `PXI_init` and its sync handshake (source/arm9/hardware/pxi.c:30-39) are not modelled.
- Concurrency on the PXI link: the peer is assumed not to drain the send FIFO during one burst of writes. The busy-wait for room (pxi.c:66) becomes the precondition that the send FIFO is not full. The busy-wait for a reply (pxi.c:73) becomes a `peerReply` word that arrives when the receive FIFO is empty.
- Pxi.Channel.HandleIrq: `IPC_handleCmd` is given the received words only; the remaining entries of the 15-word buffer are uninitialised in the source and not modelled.
- MenuUtil.TruncateString: requires `tpos >= 0`; for a negative `tpos` the C precision argument is negative and its meaning depends on the formatter.
- MenuUtil.TruncateString: the original string is taken to contain no '%', since the source passes it to `ee_snprintf` as a format string.
- MenuUtil.IntegerPartRange: requires that `bytes * 100` does not wrap; above that, `BytesTextWrapExample` shows the wrapped output.
- MenuUtil.WrapFits: requires text without '\n'; a line that ends at an existing '\n' is never measured by the source (see Findings), and `WrapCorrectedFits` states the property for the corrected loop.
- The u32 counters of `stringGetHeight` and `stringGetWidth` are unbounded here; a string with 2^32 characters cannot fit in the console's memory.
- FirmWriter.WriteFirmPartition: the NAND driver's success and failure are nondeterministic; bytes outside the written range are not modelled as changing. After a failed write the sectors of the failing block hold unspecified bytes.
- Pxi.Channel.SendCmd, Pxi.Channel.HandleIrq: the source tests PXI_EMPTY_FULL_ERROR in REG_PXI_SYNC9 (pxi.c:56 and 69), while `PXI_init` writes that bit to REG_PXI_CNT9 (pxi.c:33). pxi.h is not part of this model, so the sync register's bit layout is unknown. The model reads the FIFO error flag instead. If that bit of the sync register is unrelated to the FIFOs, neither method halts on a FIFO error as the source is written.
- `ee_sprintf` return values and buffer overflows in `keysToString` are not modelled; the longest text (all twelve buttons) is well below any buffer the menu uses.

## Findings

| source | as written | input that shows it | evidently intended | confidence | as-written member | corrected member |
|---|---|---|---|---|---|---|
| source/arm9/firmwriter.c:97-116 | each block writes and reads back `writeSize >> 9` sectors, so a last block's tail beyond a whole sector is never written, while the compare covers all `writeSize` bytes, the tail against stale compare-buffer contents | a FIRM with one section of 0x10 bytes at offset 0x200: firm_size reports 0x210, only 0x200 bytes reach the NAND, and the call returns -8 unless the stale bytes happen to match, in which case it reports success with the tail missing | write the last block rounded up to whole sectors, so the full image is stored | medium, not executed | FirmWriter.WriteImage, FirmWriter.UnalignedImageExample | FirmWriter.WriteImageRounded |
| source/arm9/firm.c:138 | the CPU copy loop runs `for(n = 0; n < size / 4; n += 4)` and copies four words per pass, so it copies `size / 4` words rounded up to a multiple of four, while the overlap test only checks `[address, address + size)` | a section of 0x14 bytes with copy method 2 at 0x14 bytes below the ARM9 stack passes firm_verify, and the loop writes 0x20 bytes, 12 of them onto the stack | copy exactly `size / 4` words, as the NDMA branch does, so nothing past the section's declared range is written | medium, not executed | Firm.CpuCopy, Firm.CpuCopyOverrunsAdjacentArea, Firm.CpuCopyIntoStackExample | Firm.CpuCopyCorrected, Firm.CorrectedCopyIsSafe |
| source/arm11/menu/menu_util.c:105-117 | `old_lf` points at the previous '\n', so every line after the first is measured one character too long | "a\nb": both lines are 1 wide, the function returns 2 | the length of the longest line | medium, not executed | MenuUtil.StringGetWidth, MenuUtil.WidthOvercountExample | MenuUtil.StringGetWidthCorrected |
| source/arm11/menu/menu_util.c:135 | at an existing '\n' the loop only moves `last_brk`, so the line that newline ends is never measured against `llen` | "a bc\n" with `llen` 3: the line "a bc" is 4 long and has a space, yet the string comes back unchanged | measure the segment at a '\n' as at a space, breaking at the last space when it is too long | medium, not executed | MenuUtil.StringWordWrap, MenuUtil.NewlineOverrunExample | MenuUtil.WrapCorrected, MenuUtil.WrapCorrectedFits |
