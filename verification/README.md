# AETHERION OS: verified model

This project models the hard parts of the AETHERION OS kernel and boot loader and proves what they
are for:

- the **text terminal** (`VgaText`, `VgaTerminal`): a driver with row, column and an 80x25 cell array,
  scrolling in place, refines an unbounded flat document that has no rows, no wrapping and no scrolling;
- the **keyboard and the shell** (`Scancode`, `Keyboard`, `LineEditor`, `Shell`, `ShellDisplay`, `EndToEnd`): the
  decoder, the ring between interrupt handler and shell with `keyboard_getchar` cut at its accesses to shared memory, the
  line editor, its echo, what every command prints, and the whole path from power on and scancodes to dispatched
  commands under every interleaving;
- the **ATA PIO driver against a drive** (`AtaDrive`, `AtaDriver`, `AtaDisk`): task-file writes into two-deep
  registers, nondeterministic status that means nothing while BSY is set, 256-word transfers, sectors that may fail
  to be stored after the last word; runs of requests refine an array of sectors;
- **PCI configuration space** (`PciConfig`, `PciBar`, `PciScan`): sub-dword accesses as a byte memory, BAR sizing,
  enumeration and lookups;
- **strings** (`CString`, `Format`, `ReadCommand`): C-string loops, `sprintf`, `atoi`, the `read` parser;
- **boot and memory arithmetic** (`Paging`, `ChsLoader`, `AhciAlloc`, with `Bits` below them).

Code that updates state is imperative here too: statics are fields of a class or a `var`, buffers are arrays,
loops are loops, and every method is proved against a function of its inputs or of the old state. `Bytes` holds
the machine integers.

## What the code does that its intent does not

Each of these is modelled as written, with the exact condition under which the code meets its intent:

- Caps lock shifts every key, not only letters: the `1` key types `!` under it (`Scancode.LegendAgrees`,
  `Scancode.CharactersAreKeystrokes`).
- A `char` of 0x80 or more destroys the attribute byte of its cell (`VgaText.EntryDecodes`).
- A backspace that deletes from the line while the cursor is in column 0 does not move the cursor; this is the only
  way the screen and the line can part (`LineEditor.DisplayExact`, `LineEditor.StuckTyping`), and what is shown then
  is known exactly (`LineEditor.ShownExact`, `LineEditor.ShownAhead`).
- The message about an unknown command is formatted into 256 bytes, so from 236 characters on it loses its newline and
  the next prompt starts in column 15 (`Shell.OutputExact`, `Shell.CutShortExact`); the display holds there as well.
- `reboot` turns interrupts off and stops the processor: nothing typed after it is ever handled
  (`EndToEnd.Machine.Drain`).
- The driver takes DRQ without ERR for the data phase without looking at BSY: a sector is sure to be right if and only
  if BSY was clear in that poll (`AtaDrive.SectorReadExact`, `AtaDrive.SectorWriteExact`). It does not look at the
  status after the flush either: 0 comes back for a sector that was lost (`AtaDrive.LossPossible`), and the answers it
  ignores tell exactly which those are (`AtaDriver.PioWrite`).
- The buffer of the `read` command is as large as the transfer exactly for counts from 0 to 4194303
  (`ReadCommand.BufferExact`).
- The 48-bit path exchanges address bits 31:24 with bits 47:40 (`AtaDriver.Hit48Exact`), every transfer goes to unit 1
  (`AtaDisk.UnitExact`), and a buffer index is 32 bits wide (`AtaDisk.SlotsDistinctExact`).
- 0xE0 is taken by the release branch, so extended keys are their plain counterparts (`Scancode.ExtendedPrefixIgnored`).
- A 16-bit configuration access at offset 3 loses its high byte (`PciConfig.Read16Exact`,
  `PciConfig.Read16Example`, `PciConfig.Write16IsPairUpdate`); BAR sizing returns a C `int` and trusts the recorded register
  (`PciBar.PowerAsInt`, `PciBar.RestoreExact`, `PciBar.StaleExample`).
- `sprintf` prints INT_MIN as `-(` (`Format.RenderIntMin`); the `read` parser does not step over a minus sign
  (`ReadCommand.ParseReadRecovers`).
- The debug output in the CHS loop overwrites the register that is compared next, so the loop always reads 16 sectors:
  it ends only for multiples of 16 and loads contiguously only up to 112 sectors (`ChsLoader.EndsExactly`,
  `ChsLoader.LoadsExactly`).
- Rounding an allocation up can wrap to address 0 (`AhciAlloc.PlaceExact`, `AhciAlloc.PlaceExample`).

## Model

| member | source | states |
|---|---|---|
| VgaText.EntryDecodes | kernel/vga.c:20-22 | a cell always gives its character back, and its colour exactly when the character is below 0x80 (or the colour is 0xFF) |
| VgaTerminal.Terminal.PutChar | kernel/vga.c:61-94 | for any byte, in terms of row, column and cells alone: a newline goes to column 0 of the next row, or scrolls by one row in row 24; a return to column 0; a tab to the next multiple of four, or the next row at 80; a backspace blanks the cell to the left unless in column 0; any other byte is stored and the cursor moves on, to the next row at 80. And it is the document's edit at one flat position, seen through its last 25 rows |
| VgaTerminal.TabMask | kernel/vga.c:73 | masking the column with ~3 is going to the next multiple of four |
| VgaTerminal.PutAtRowColumn | kernel/vga.c:61-94 | in terms of row and column: where the document's row starts, and that the next tab stop of the column is that of the document position |
| VgaTerminal.Terminal.Scroll | kernel/vga.c:44-54 | the overlapping row copies move the window down by one row and append one row of blanks in the current colour |
| VgaTerminal.AppendShiftsWindow | kernel/vga.c:44-54 | appending a row to the document is dropping the first row of the window |
| VgaTerminal.Terminal.ScrollUp | kernel/vga.c:56-59 | every cell is the one n rows below, the last n rows are blank in the current colour; n calls append n rows and leave the cursor in the last one |
| VgaTerminal.Terminal.Clear | kernel/vga.c:34-42 | 2000 blanks in the current colour and the cursor in row 0, column 0, whatever the buffer held: a fresh document |
| VgaTerminal.Terminal.Init | kernel/vga.c:24-28 | over any video memory, 2000 blanks in light grey on black and the cursor in row 0, column 0 |
| VgaTerminal.Terminal.SetColor | kernel/vga.c:30-32 | the attribute's low nibble is the foreground and its high nibble the background; only what is written later changes |
| VgaTerminal.Terminal.WriteString | kernel/vga.c:96-99 | the document edits of the characters up to the NUL, in order |
| VgaTerminal.Terminal.SetCursor | kernel/vga.c:101-106 | row and column are the arguments when both are in range, and unchanged otherwise; the document position moves within the window alike |
| VgaTerminal.Terminal.PerformAll | kernel/vga.c:24-106 | after any sequence of calls the 2000 cells are the last 25 rows of the document with the same edits |
| VgaText.PlainTextConsecutive | kernel/vga.c:88-93 | text without control characters fills consecutive cells across row and window boundaries and changes nothing else |
| VgaText.LineStands | kernel/vga.c:61-99 | a text and a newline: its characters stand in consecutive cells from the cursor on, nothing before has changed, and the cursor is at the start of the row after |
| VgaText.PutAllAppend | kernel/vga.c:96-99 | writing two texts one after the other is writing them as one |
| VgaText.RunKeepsHistory | kernel/vga.c:44-94 | rows that have scrolled off are never changed by any later run without a clear |
| VgaText.RunBlankBelow | kernel/vga.c:44-94 | without set_cursor, every row below the cursor stays blank over any run |
| VgaText.SetCursorExact | kernel/vga.c:101-106 | set_cursor keeps that if and only if it is out of range or the rows after the one it moves to are blank as far as the row it left |
| Scancode.TablesAgree | kernel/keyboard.c:24-44 | shift capitalises exactly the letters, leaves control keys alone, adds and removes no key; ASCII only |
| Scancode.LegendAgrees | kernel/keyboard.c:24-44 | both tables, key by key, are the legends of a US keyboard: its small letters and capitals, and for every other key the symbol below and the symbol above |
| Scancode.ShiftMeaning | kernel/keyboard.c:158-184 | the shift flag after any scancodes is whether the last byte of either shift key was a press |
| Scancode.CapsMeaning | kernel/keyboard.c:193-196 | the caps flag is the parity of caps-lock presses |
| Scancode.CharactersAreKeystrokes | kernel/keyboard.c:153-212 | over any scancodes the characters are the legends of the pressed keys, upper where the last shift byte being a press differs from the parity of caps-lock presses, and lower otherwise |
| Scancode.LetterMeaning | kernel/keyboard.c:199-205 | so a letter key types the capital, 32 below its small letter, if and only if those differ |
| Scancode.SymbolMeaning | kernel/keyboard.c:199-205 | and a key with two symbols the upper one, `1` or `!` for scancode 2 |
| Scancode.ExtendedPrefixIgnored | kernel/keyboard.c:156-177 | removing every 0xE0 from any input changes neither characters nor flags, and the extended flag is never set |
| Keyboard.Ring.DecodeInPlace | kernel/keyboard.c:153-212 | the handler's branches: shift follows the last shift byte, caps lock toggles, the extended flag is never left set, and the character found is the key's upper legend if the shift flag differs from the caps flag and its lower legend otherwise |
| Keyboard.FullExactly | kernel/keyboard.c:86-96 | the guard of the push fails exactly at 255 pending characters, that of the pop exactly at none |
| Keyboard.Ring.Push | kernel/keyboard.c:86-92 | the queue gains the character at its end unless 255 are pending, and no pending slot is overwritten |
| Keyboard.Ring.Interrupt | kernel/keyboard.c:153-212 | at any point of the shell's getchar: a decoded character is accepted in order or dropped exactly at 255 pending; delivered then pending is what was accepted |
| Keyboard.Ring.DropFirst | kernel/keyboard.c:98 | storing the tail removes exactly the oldest pending character |
| Keyboard.Ring.Step | kernel/keyboard.c:94-100 | one shared-memory access of has_key or pop: delivers the oldest pending character with the tail store and never the zero of an empty ring |
| LineEditor.BackspacesUndoTyping | kernel/kernel.c:127-136 | erasing as many characters as were typed restores the line exactly when the text fitted in 255 (or the line was empty) |
| LineEditor.TypingText | kernel/kernel.c:133-136 | typing appends the text, cut at 255 |
| LineEditor.OtherKeysIgnored | kernel/kernel.c:127-136 | keys other than backspace and 32 to 126, a tab or an escape say, change nothing and can be dropped from any input |
| LineEditor.LinesAreFolds | kernel/kernel.c:50-137 | every submitted line is the fold of exactly the keys since the previous Enter |
| LineEditor.SegmentsRejoin | kernel/kernel.c:53 | the pieces between Enters, rejoined, are the keys |
| LineEditor.SegmentsHaveNoEnter | kernel/kernel.c:53 | no piece contains an Enter |
| LineEditor.PrefixSubmits | kernel/kernel.c:50-137 | what some of the keys submit is a beginning of what all of them submit |
| LineEditor.ShownExact | kernel/kernel.c:127-136 | for any keys after a prompt ending anywhere, the screen shows exactly one text, then blanks, with the cursor after it: the line, except that a backspace in column 0 erases nothing |
| LineEditor.ShownAhead | kernel/kernel.c:127-132 | that text is longer than the line by one character for each such backspace |
| LineEditor.ShownIsLine | kernel/kernel.c:127-136 | and is the line if and only if there was none |
| LineEditor.DisplayExact | kernel/kernel.c:127-136 | so the screen shows prompt, line, blanks and the cursor after the line if and only if no backspace deleted from a line that ended just before column 0 |
| LineEditor.StuckTyping | kernel/kernel.c:127-132 | any text that ends there, and a backspace: the line loses its last character and the screen keeps it |
| LineEditor.ShortNeverStuck | kernel/kernel.c:127-136 | no backspace does while prompt end plus line length stays below 80 |
| LineEditor.DisplayInOneRow | kernel/kernel.c:127-136 | so the screen shows them, in the prompt's row |
| LineEditor.PromptStartsDisplay | kernel/kernel.c:124-125 | a prompt at any column with only blanks ahead begins such a display, scrolled or not |
| Shell.OutputExact | kernel/kernel.c:54-122 | for any line and whatever the machine reports, its output leaves only blanks ahead of the cursor, and a fresh row if and only if it was not the message of an unknown line of 236 characters or more, which leaves column 15 |
| Shell.CutShortExact | kernel/vga.c:114-120 | such lines are those of more than 235 characters that begin neither with "read " nor with "echo " |
| Shell.Dispatch | kernel/kernel.c:58-122 | the strcmp and strncmp chain on the NUL-terminated buffer picks the command its text names, arguments included |
| Shell.CommandMeaning | kernel/kernel.c:58-122 | in ASCII: a line is the command whose word it is, or an argument after "read " or "echo ", nothing if empty, and unknown in every other case |
| Shell.Console.Enter | kernel/kernel.c:53-126 | dispatches exactly the current line; newline, output, empty line and prompt, with the display starting again after it; "reboot" stops the machine instead |
| ShellDisplay.EchoShown | kernel/kernel.c:111-114 | after "echo " and a text the text stands on the next row in the current colour, the prompt at the start of the row after it ends, and nothing above has changed |
| ShellDisplay.UnknownShown | kernel/kernel.c:119-121 | after a line of at most 235 characters that is no command so does "Commande inconnue: " with the line |
| ShellDisplay.LongUnknownShown | kernel/vga.c:114-121 | after a longer one the first 255 characters of that, and the prompt right behind them |
| ShellDisplay.HelpShown | kernel/kernel.c:59-68 | after "help" the eight lines of the help stand on the next eight rows and the prompt on the row below |
| ShellDisplay.RebootShown | kernel/kernel.c:115-118 | after "reboot" the message "Redemarrage..." stands on the next row, and there is no prompt |
| ShellDisplay.NothingShown | kernel/kernel.c:57-125 | after an empty line there is only the prompt, on the next row |
| ShellDisplay.ClearShown | kernel/kernel.c:69-71 | after "clear" the prompt is at the top of blanks in the current colour |
| ShellDisplay.ReadShown | kernel/kernel.c:91-110 | after "read " what the layers below report is written, and then "Disque invalide", "Erreur lecture" or the end of the dump |
| ShellDisplay.DisksShown | kernel/kernel.c:72-74 | after "disks" a row is left free and the title stands on the next in yellow, then the list in white |
| ShellDisplay.PciShown | kernel/kernel.c:75-77 | the same after "pci" |
| Shell.Console.OtherKey | kernel/kernel.c:127-136 | buffer and screen change together as the editor says |
| Shell.PromptRow | kernel/kernel.c:124-136 | the cursor's row of the video memory is, from the prompt's column on (0, or 15 after a cut message), the prompt, then exactly cmd_buf[..cmd_len], then blanks, cursor just after |
| Shell.ShortLinesShown | kernel/kernel.c:124-136 | it is whenever no line typed since the prompt reached the end of the row |
| Shell.ScreenShown | kernel/kernel.c:124-136 | for any keys since the prompt, each cell of the video memory behind it shows its character of that text, and blanks follow the cursor |
| EndToEnd.Machine.Run | kernel/keyboard.c:153-222 | for every interleaving of interrupts and shell steps, whatever commands print: delivered + pending = accepted, accepted is part of what the pressed keys' legends spell in order, submitted lines are those of the delivered characters, the machine stops exactly at "reboot", and without overflow the lines are a beginning (once stopped, all) of those the keystrokes spell up to the first "reboot" |
| EndToEnd.Machine.Drain | kernel/kernel.c:50-137 | left alone, the shell submits exactly the lines of everything accepted up to the first "reboot": all of them if and only if no "reboot" comes before the last |
| EndToEnd.UntilRebootExact | kernel/kernel.c:115-118 | cutting lines after the first "reboot" loses nothing if and only if none comes before the last line |
| EndToEnd.PowerOn | kernel/kernel.c:12-47 | over any video memory and any messages of the initialisation the machine comes up with "Systeme pret. Tapez 'help' pour les commandes." in green where those ended, and the prompt in white on the next row, at the start of a display of the empty line |
| EndToEnd.LinesOfScancodes | kernel/kernel.c:50-137 | those lines are the keystrokes cut at Enters, each piece folded from an empty line |
| AtaDriver.AddressedDecodes | kernel/ata.c:65-80 | whatever the registers held, the drive decodes one sector, LBA mode, unit 1, the address Hit names, the obsolete device bits set and no features |
| AtaDriver.Hit28Exact | kernel/ata.c:121-126 | the 28-bit path reaches the requested sector if and only if it is below 2^28 |
| AtaDriver.Hit48Exact | kernel/ata.c:69-76 | the 48-bit path does if and only if the address is below 2^48 and its bits 31:24 equal its bits 47:40 |
| AtaDisk.Swapped48Example | kernel/ata.c:73-75 | sector 2^24 turns into sector 2^40 |
| AtaDriver.Issue | kernel/ata.c:112-127 | the command is accepted exactly when the sector that is hit exists on unit 1 |
| AtaDriver.WaitDrq | kernel/ata.c:52-62 | with every answer it got: 0 exactly when the last had DRQ without ERR, none before it having either, and -1 otherwise |
| AtaDriver.RefusedExactly | kernel/ata.c:52-62 | -1 means that the last answer had ERR, or that all timeout_ms * 1000 polls had neither DRQ nor ERR |
| AtaDriver.WaitReady | kernel/ata.c:41-49 | with every answer it got: 0 at the first with BSY clear and DRDY set, -1 when none of the polls had that |
| AtaDrive.SectorReadExact | kernel/ata.c:52-62 | every sector that can be read after such a poll is the one asked for if and only if BSY was clear |
| AtaDrive.SectorWriteExact | kernel/ata.c:52-62 | every write after such a poll that the drive confirms after the flush has stored the sector if and only if BSY was clear in that poll (or the sector was there before) |
| AtaDrive.LossPossible | kernel/ata.c:164-173 | a drive that took all 256 words may still lose the sector |
| AtaDriver.PioRead | kernel/ata.c:105-137 | 0 or -1, -1 exactly when a wait was refused; the events on the channel are one command and its polls per try, with 256 words exactly after those that granted them; in either case exactly the sectors received are in their places, those granted with BSY clear are the ones that were hit, and the drive's media are unchanged |
| AtaDriver.PioWrite | kernel/ata.c:140-176 | 0 or -1, -1 exactly when a wait was refused; the events on the channel are, per try, the write command, its polls and, exactly when they granted it, 256 words, FLUSH CACHE and polls that end at the first with BSY clear and DRDY or are 1,000,000 without one; in either case of the sectors sent exactly those marked as landed are on unit 1, in order, the answers after the flush tell which (granted with BSY clear: landed if and only if an answer with BSY clear has neither ERR nor DF), and unit 0 is unchanged |
| AtaDriver.WriteCommands | kernel/ata.c:140-176 | so the commands of a write are 0x30 (0x34 with 48 bits) and 0xE7 in turn: each sector that was granted is flushed before the next is begun |
| AtaDriver.ReadCommands | kernel/ata.c:105-137 | and those of a read 0x20 (0x24), once for every try |
| AtaDriver.CompleteExactly | kernel/ata.c:105-176 | a transfer is complete if and only if every wait was granted |
| AtaDisk.Faithful28Exact | kernel/ata.c:105-137 | a 28-bit transfer touches the sectors it names if and only if lba + count <= 2^28 |
| AtaDisk.Faithful48Exact | kernel/ata.c:105-137 | a 48-bit transfer does if and only if every address in it has equal bytes 3 and 5 and fits 48 bits |
| AtaDisk.Faithful48Small | kernel/ata.c:105-137 | in particular when lba + count <= 2^24 |
| AtaDisk.UnitExact | kernel/ata.c:112 | a transfer selects the unit its disk was registered for if and only if that is the slave |
| AtaDisk.SlotsDistinctExact | kernel/ata.c:133 | the 32-bit buffer index keeps sectors apart if and only if there are at most 2^24 |
| AtaDisk.LargeReadOverwrites | kernel/ata.c:133 | one more overwrites the first sector's words |
| AtaDisk.FilledIsFlat | kernel/ata.c:129-134 | up to there a read lays the sectors out one after the other and leaves the rest of the buffer |
| AtaDisk.ReceivedIsNamed | kernel/ata.c:105-137 | granted with BSY clear, and at a faithful address, they are the sectors the call names |
| AtaDisk.WrittenIsOverwrite | kernel/ata.c:164-169 | up to there a write that landed replaces exactly the named sectors |
| AtaDisk.Session | kernel/ata.c:105-176 | any run of proper requests, each succeeding or failing part-way, is a run of the plain sector array when every sector was granted with BSY clear and, if written, confirmed; in any case the events on the channel are those of the requests, one after the other, with every granted sector of a write flushed and the flush waited for, a request fails exactly when one of its waits was refused, and unit 0 is unchanged |
| AtaDisk.StepsAreLatest | kernel/ata.c:105-176 | after any such run each sector holds the most recent write that reached it, or its first content |
| AtaDisk.ReadsAreLatest | kernel/ata.c:105-176 | in any such run each sector of each read is the most recent write before it, or the first content |
| PciConfig.AddressInjective | kernel/pci.c:42-44 | two accesses share an address if and only if they name the same dword of the same function (device < 32, function < 8) |
| PciConfig.AddressFormat | kernel/pci.c:42-44 | bit 31 is set, and bus, device, function and dword number are in bits 23:16, 15:11, 10:8 and 7:2 |
| PciConfig.DeviceRangeNeeded | kernel/pci.c:42-44 | device 32 collides with the next bus |
| PciConfig.Write8IsByteUpdate | kernel/pci.c:81-86 | an 8-bit write changes that byte and no other byte of any function |
| PciConfig.Write16IsPairUpdate | kernel/pci.c:67-72 | a 16-bit write is a little-endian two-byte update, and only the low byte at offset 3 |
| PciConfig.Read16Exact | kernel/pci.c:61-64 | a 16-bit read is the little-endian pair if and only if it stays in a dword or the missed byte is zero |
| PciConfig.Read16Example | kernel/pci.c:61-64 | a word across two dwords with a high byte of 1 reads as 0 |
| PciConfig.ReadBack | kernel/pci.c:61-86 | what an accessor wrote the same accessor reads |
| PciConfig.ConfigPort.Read16 | kernel/pci.c:61-64 | the word taken from the aligned dword through the address and data ports |
| PciConfig.ConfigPort.Write16 | kernel/pci.c:67-72 | the read-modify-write through the ports |
| PciConfig.ConfigPort.Read8 | kernel/pci.c:75-78 | the byte at that register |
| PciConfig.ConfigPort.Write8 | kernel/pci.c:81-86 | the read-modify-write through the ports |
| PciBar.GetBarSize | kernel/pci.c:159-178 | 0 without any access for a bad index or empty register; otherwise two writes to that register only; for a register decoding 2^k bytes and a record in step with it, 2^k if and only if no address bit below k is stuck at one, and configuration space is as it was |
| PciBar.BarSizeExact | kernel/pci.c:159-178 | the same for one k |
| PciBar.SizingExact | kernel/pci.c:159-178 | the same of probe and restore by themselves |
| PciBar.RestoreExact | kernel/pci.c:162-168 | with a stale record the register is restored if and only if record and register agree on the writable bits |
| PciBar.PowerAsInt | kernel/pci.c:177 | as the returned C int, 2^k is itself if and only if k <= 30 |
| PciBar.BarAddress64 | kernel/pci.c:141-156 | a 64-bit base split over two registers comes back whole |
| PciBar.BarAddress32 | kernel/pci.c:141-156 | a 32-bit memory base comes back without its type bits |
| PciBar.BarAddressIo | kernel/pci.c:141-156 | and a port base without its two |
| PciScan.Enumerator.ReadDeviceInfo | kernel/pci.c:97-124 | laid out as a type-0 header, the record is the bytes of configuration space at every offset below 0x40 but the reserved 0x35 to 0x3B |
| PciScan.RecordIsHeader | kernel/pci.c:97-124 | the same of the record that the enumeration stores |
| PciScan.RecordInStep | kernel/pci.c:111-113 | register i of a record is the dword that sizing register i of that function probes and restores |
| PciScan.Enumerator.ScanBus | kernel/pci.c:181-226 | on a bus with nothing behind its bridges the records of its enumerated functions are appended to any table as far as it has room, and entries not reached are unchanged |
| PciScan.Enumerator.Init | kernel/pci.c:229-242 | so after initialisation the table is the first 32 of bus 0, each entry the header of its function, configuration space unchanged |
| PciScan.TableExactly | kernel/pci.c:184-223 | those are in increasing (device, function) order, without duplicates, and are exactly the present functions outside single-function devices |
| PciScan.TableHeaders | kernel/pci.c:184-223 | entry i is the header, byte for byte, of a function of bus 0 |
| PciScan.ExistsBytes | kernel/pci.c:89-94 | a function is present if and only if its first four bytes are neither all ones nor all zero |
| PciScan.RestSkipped | kernel/pci.c:221-222 | leaving the inner loop at a single-function device loses nothing |
| PciScan.FullTable | kernel/pci.c:189-190 | leaving the scan when the table is full loses nothing it had room for |
| PciScan.SearchMeaning | kernel/pci.c:268-277 | a search by address finds something if and only if the function was recorded, and then its own record |
| PciScan.Enumerator.GetDevice | kernel/pci.c:268-277 | the first record with that address, or none |
| PciScan.LookupMeaning | kernel/pci.c:268-277 | after initialisation that finds something, for any address whatever, if and only if a recorded function has it, and then the record of that function |
| PciScan.Enumerator.FindClass | kernel/pci.c:256-265 | the first record of that class, any interface for 0xFF, or none |
| PciScan.FindClassMeaning | kernel/pci.c:256-265 | after initialisation it finds something if and only if a recorded function has those bytes at 0x0B, 0x0A and 0x09 (any at 0x09 for 0xFF), and then the entry of one that has |
| PciScan.Enumerator.FindDevice | kernel/pci.c:245-253 | the first record with those ids, or none |
| PciScan.FindMeaning | kernel/pci.c:245-253 | after initialisation it finds something if and only if a recorded function has those ids, little-endian, in its bytes 0 to 3, and then the entry of one that has |
| CString.StrCmp | kernel/string.c:4-9 | the first difference of the two texts as unsigned bytes |
| CString.CompareBefore | kernel/string.c:4-9 | negative if and only if the first text is before the second in dictionary order |
| CString.CompareZero | kernel/string.c:4-9 | zero if and only if the texts are equal |
| CString.CompareDifference | kernel/string.c:4-9 | otherwise it is the difference of the bytes where the texts, with their NULs, first differ |
| CString.CompareSwap | kernel/string.c:4-9 | exchanging the arguments negates the result |
| CString.CompareTransitive | kernel/string.c:4-9 | the order is transitive |
| CString.StrNCmp | kernel/string.c:11-17 | strcmp of the two texts cut to n bytes, wherever a NUL or n bytes can be read |
| CString.CutTextIs | kernel/string.c:11-17 | for a terminated string that is the text cut to n bytes |
| CString.PrefixTest | kernel/kernel.c:78 | strncmp with a literal's length tests for that prefix |
| CString.StrCpy | kernel/string.c:19-23 | the text and its NUL at the destination, every other byte of memory unchanged |
| CString.CopiedText | kernel/string.c:19-23 | the destination then holds exactly that text |
| CString.StrNCpy | kernel/string.c:25-34 | n bytes: the text cut to n and padded with zeros, nothing else changed, as long as the bytes looked at are not among those written |
| CString.StrLen | kernel/string.c:36-40 | the length of the text |
| CString.StrCat | kernel/string.c:42-46 | the second text and a NUL written over the first one's NUL, nothing else changed |
| CString.AppendedText | kernel/string.c:42-46 | the destination then holds the concatenation |
| Format.Atoi | kernel/string.c:56-65 | the wrapped accumulation over the leading digits with the sign applied |
| Format.AtoiExact | kernel/string.c:56-65 | it is the integer spelled, modulo 2^32, hence exact if and only if that is an int |
| Format.NoOverflowExact | kernel/string.c:60-63 | no partial result overflows if and only if the spelled number is at most 2^31 - 1 |
| Format.PutInt | kernel/string.c:77-86 | the backwards digit buffer comes out as the decimal text, within 11 of its 32 bytes |
| Format.RenderIntMin | kernel/string.c:80-84 | the least int prints as a minus sign and a parenthesis |
| Format.RenderDecimal | kernel/string.c:77-86 | every other int prints as digits without a leading zero, after a minus sign if it is negative, and they spell it |
| Format.Sprintf | kernel/string.c:68-103 | the left-to-right expansion of the format and a NUL, its length returned, nothing else written |
| Format.ExpandLiteral | kernel/string.c:95-97 | text without % is copied |
| Format.ExpandConversion | kernel/string.c:74-91 | %d prints the decimal text of its argument, %s its text, and the rest is passed on |
| Format.ExpandOther | kernel/string.c:92-93 | any other character after % prints itself and takes no argument, and so does a % at the end |
| Format.AtoiInvertsRender | kernel/string.c:56-86 | atoi of a printed int followed by a non-digit is that int if and only if it is not INT_MIN, without intermediate overflow |
| ReadCommand.Parse | kernel/kernel.c:79-89 | the pointer walk reads three fields of the text after the command word |
| ReadCommand.FieldsAt | kernel/kernel.c:79-89 | on any text at all: the first number is read after all leading spaces, each later one after all digits and then all spaces from there |
| ReadCommand.ParseReadRecovers | kernel/kernel.c:79-89 | with any spaces between them, three printed ints come back if and only if none is INT_MIN and from the first negative one on they are equal |
| ReadCommand.ParseUndoesPrint | kernel/kernel.c:79-89 | what sprintf prints for three non-negative ints is read back |
| ReadCommand.FieldsNeedASpace | kernel/kernel.c:84-85 | without a space digits of two fields run together |
| ReadCommand.BufferExact | kernel/kernel.c:93-94 | the buffer asked for is as large as the transfer if and only if the count is from 0 to 4194303 |
| Paging.SetUpTables | boot/bootloader.asm:138-154 | the zeroing loop and six stores build the three tables over any memory and write nothing else |
| Paging.IdentityMap | boot/bootloader.asm:138-157 | a four-level walk maps each address below 2 MiB to itself, present and writable, and no other 48-bit address |
| ChsLoader.Lba2Chs | boot/stage2.asm:303-314 | the two 16-bit divisions give a sector and head in range that name the low word of the block number |
| ChsLoader.ChsExact | boot/stage2.asm:303-314 | the triple is in range and names the block if and only if the block number fits 16 bits |
| ChsLoader.ChsInjective | boot/stage2.asm:303-314 | distinct blocks get distinct triples |
| ChsLoader.ReadChs | boot/stage2.asm:251-301 | the BIOS calls of the loop, for any count and any outcomes; without a failing call it ends exactly for multiples of 16, after sectors / 16 calls, each of which loads its 8 KiB if and only if there are at most 112 sectors |
| ChsLoader.AfterIs | boot/stage2.asm:283-294 | the variables after n calls in closed form: block 18 + 16n and count both in 16 bits, the segment 64 KiB on with every eighth call, the offset 16 + 8192 * (n mod 8) |
| ChsLoader.EndsExactly | boot/stage2.asm:256-288 | the loop's counter is zero after n calls if and only if the count is a multiple of 16 and n is count / 16, up to multiples of 4096 |
| ChsLoader.LoadsExactly | boot/stage2.asm:251-295 | for a multiple of 16, each block is requested once, in order, into contiguous memory from 1 MiB, cylinder fitting its byte, if and only if there are at most 112 |
| ChsLoader.EighthCallWraps | boot/stage2.asm:286-294 | the eighth call leaves the segment |
| AhciAlloc.PlaceExact | kernel/ahci.c:59-63 | the pointer is the least multiple of the alignment from the bump pointer on unless rounding wraps, and null then |
| AhciAlloc.RegionsDisjoint | kernel/ahci.c:59-63 | over any run of requests that fit, regions are aligned, of the requested size, increasing and disjoint |
| AhciAlloc.Allocator.AllocPort | kernel/ahci.c:341-346 | a port's three structures fill exactly the next 8 KiB, and the received-FIS view stops before the command table |
| AhciAlloc.Allocator.DetectPorts | kernel/ahci.c:324-346 | exactly the ports implemented and with the signature of a disk get a block: 8 KiB each from 16 MiB on, in the order of the port numbers, and nothing is allocated for the others |
| Bits.MaskRoundsDown | kernel/ahci.c:60 | masking with the complement of 2^k - 1 rounds down to a multiple of 2^k |

## Left out

- Port I/O instructions, BIOS interrupts, timing: ports are the abstract drive, configuration space and scancode source; polls and BIOS outcomes are arbitrary.
- AtaDisk.Session: what a run does to unit 1 is stated for runs whose sectors were granted with BSY clear and confirmed; for the others `AtaDriver.PioRead` and `AtaDriver.PioWrite` say sector by sector what was received and stored.
- ATA detection and IDENTIFY, the CHS and multi-sector commands: the model's drive serves one-sector LBA commands, which is all the driver issues.
- `keyboard_init` and waking from `hlt`: hardware handshakes. The handler is taken to run with interrupts off, and nothing but it and the shell touches the ring.
- The disk and PCI lists, the hex dump and what the disk layers report of a failed read: any text; the calls around them and the shell's own messages are as in the source. `vsnprintf` is taken to cut at 255 characters.
- A non-maskable interrupt, which would wake the processor after `reboot`.
- Signed overflow in `sprintf` and `atoi` is undefined in C; it is modelled as wrap-around.
- PciBar.GetBarSize: returns the 32 bits of the C int; `PciBar.AsInt` reads them as one.
- PciScan.Enumerator.ScanBus: bridges with functions behind them, because the source scans behind a bridge before it has counted the bridge's own record, into the same entry, and nothing bounds the recursion.
- PciScan.Enumerator.Init: the same.
- What `pci_init` and `pci_scan_bus` print.
- Read-only and write-one-to-clear configuration bits: every register has a mask of writable bits, all ones where byte memory is claimed.
- AHCI command issue, FIS contents, port start and stop: only the allocations are modelled.
- `strchr`, `vga_get_cursor`, `pci_class_name`, the disk registry, listings and `kernel/ai.c`: easy members.
- `boot/stage1.asm`, the page tables and mode switches of `boot/stage2.asm`, its LBA read path, build scripts.
