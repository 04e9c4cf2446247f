# Lumie, verified

A Dafny model of the hard parts of the Lumie kernel and proofs of what they are for: the framebuffer
text console, the line editor on top of it, the keyboard mailbox, the ustar reader, the FAT12/16
reader with its ATA transfer, the shell and its commands, number printing, timer sleeps, and the
interrupt stubs.

`dafny verify dfyconfig.toml` checks the whole project.

## How it is built

Code that changes memory step by step is a method or a class with loops (`Display`, `Readline`,
`Driver`, `GetFile`, `FormatName`, `Reader`, `Drive`, `Pit`, `Processor`, `CmdCat`, `Split`,
`KernelShell`, `Kmain`). Each is tied to a specification function of the old state, and the main results are
theorems about those functions over all inputs, runs and interleavings.

| module | what it holds |
|---|---|
| `Bytes`, `Arithmetic`, `CString`, `Numerals` | bytes, signed `char`, C strings, 64-bit wrap-around, `strcmp`, number printing |
| `Font`, `Screen` | glyph rows as binary numbers; the console driver over a linear framebuffer, any stride |
| `TextGrid` | an abstract grid of character cells, and the refinement of the pixels to it |
| `TextLayout` | what a printed text looks like: its lines cut to the width of the screen |
| `GlyphPlace` | where glyphs are written when the width is not a whole number of cells |
| `Undo` | text on one row, backspacing over it, and the states reached after a black clear |
| `LineEditor` | `readline`: buffer and screen in step |
| `Keyboard`, `Typing`, `KeyTables` | the interrupt-time producer and polling consumer, all interleavings; scancodes to lines; the two layouts |
| `TarHeader`, `TarWalk`, `Tar`, `TarArchive` | ustar size fields; when the walk over an image ends; lookup and listing; archives as lists of files |
| `Ata`, `Fat`, `Directory` | sector reads, geometry, 8.3 names, search and listing |
| `FatRegions`, `FatImage` | the boot record and the regions of a disk one after another; volumes as lists of directory entries |
| `Messages`, `Reports`, `Commands` | the shell's texts, output as coloured texts in turn, what each command prints |
| `Shell`, `Session` | `cat`, splitting and dispatch; one turn of the shell |
| `Trails`, `ShellRun`, `Prompt` | runs of a step function; the shell's loop on one stream of scancodes; every prompt from start-up on |
| `CommandLines`, `LayoutChanges` | what each line typed does, in the words and colours of the source; the layouts that lines ask for and the driver's |
| `Timer`, `Interrupts` | sleep chunks on the interval timer; the stubs as an instruction-level machine |

Conventions: a C string is a byte sequence whose end reads as NUL, and memory behind the end of a
tar image reads as NUL. The disk is a total function from sector number to 512 bytes. A console cell
is 8 by 16 pixels (`charsize` 16). `Geometry.Valid` assumes a framebuffer of a whole number of cells
in width; `GlyphPlace` makes no such assumption and says exactly what fails without it. The results
of successive `keyboard_get_char` calls are the parameter `polls`, the tick count is the parameter
`ticks`, or `clock` where it differs from turn to turn, and what lies in memory behind the buffer of
`cat` is the parameter `behind`. 64-bit wrap-around is `Wrap`. A state is reached when some black
clear and console operations after it lead to it; results about reached states are for unpadded
rows, where `clear` covers the screen.

## Where the code promises less than it seems to

* `clear` fills `width * height` consecutive pixels whatever the pitch is: it covers the screen
  exactly when rows are not padded (`ClearFillsIff`).
* `put_char` draws only foreground pixels, so text is legible only because no cell at or after the
  cursor holds ink; `Shows` makes that invariant explicit and `RunShows` proves that it is kept.
* The wrap test lets a glyph start in a cut-off last cell: without padding and with a height of whole
  cells, glyphs stay inside the framebuffer exactly when the width is a whole number of cells
  (`UnpaddedIff`; `InRowsIff`, `InViewIff` and `InBufferIff` for any stride and height).
* `backspace` does not climb over a line wrap and paints black: `readline` keeps buffer and screen in
  step for all keys exactly when the longest line fits on the row it starts on and the cells there
  are black (`InStepIff`). On unpadded rows they are at every prompt of every session, so there it
  takes a prompt that is still on the screen and at least 129 columns (`PromptInStepIff`).
* For the same reasons backspacing undoes printing exactly when the text fits on the row and the
  cells were black before, or when nothing was shown at all (`UndoIff`).
* `keyboard_get_char` reads and then clears, so an interrupt in between can lose a character, but
  never duplicates or reorders one (`MailboxSafe`, `LosslessIff`).
* `fat_find_file` looks at neither the end mark, the deleted mark nor the volume label bit. Free and
  deleted slots are never found all the same (`SearchSkipsFree`); volume labels and slots behind the
  end mark are (`SearchSeesMore`).
* A name that holds a NUL, a small letter, or a dot among its first eight bytes is listed in a form
  that does not find it (`PrintedRoundTripIff`, `PrintedFindsIff`).
* `cat` reads one sector: the bytes it prints are settled by the disk exactly when the entry claims at
  most 512 bytes (`ContentsSettledIff`).
* `octal_to_int` has no length limit, so a size field that runs on into the next field can send the
  tar walk back. The walk ends exactly when it never comes back to a header (`EndsIff`), and then
  within 20481 headers; one image keeps it at its first header for ever (`StuckImage`).
* `help` says that `ls` lists the ramdisk; the code lists the FAT root directory.

## Model

| member | source | states |
|---|---|---|
| Screen.Display.PutChar | kernel/drivers/screen.c:44-60 | the two pixel loops colour exactly the foreground pixels of the glyph and no other pixel of the framebuffer; over a cell without that colour, each row of eight pixels reads as the binary number that the font has for it |
| Screen.DrawnReads | kernel/drivers/screen.c:44-60 | the same of every drawn glyph: leftmost pixel in the highest bit, sixteen font bytes a character |
| Screen.Display.Backspace | kernel/drivers/screen.c:152-172 | blackens exactly the cell before the cursor and steps back; no effect at column zero |
| Screen.Display.KprintChar | kernel/drivers/screen.c:116-137 | cursor and pixels after one character: backspace, newline, wrap, and nothing drawn below the last row |
| Screen.Display.Kprint | kernel/drivers/screen.c:90-114 | the same state as putting each character before the NUL through kprint_char in turn |
| Screen.Display.Clear | kernel/drivers/screen.c:174-181 | the linear fill and the cursor reset, whatever the stride |
| Screen.Display.DrawRect | kernel/drivers/screen.c:79-88 | colours exactly the part of the rectangle that is on the screen |
| Screen.PrintConcat | kernel/drivers/screen.c:90-114 | printing a concatenation is printing the parts in turn, from every state |
| Screen.ClearFillsIff | kernel/drivers/screen.c:174-178 | clear covers the visible screen from every state exactly when rows are not padded |
| GlyphPlace.InRowsIff | kernel/drivers/screen.c:44-110 | for every width up to the stride: each pixel that put_char addresses after the wrap test is in the row it belongs to exactly when the width rounded up to cells fits the stride |
| GlyphPlace.InViewIff | kernel/drivers/screen.c:44-110 | each such pixel is visible exactly when the width is a whole number of cells, or there is no room for a row of text |
| GlyphPlace.InBufferIff | kernel/drivers/screen.c:44-110 | each such pixel is inside the framebuffer exactly when the last one of the bottom right cell is |
| GlyphPlace.UnpaddedIff | kernel/drivers/screen.c:44-110 | with unpadded rows and a height of whole cells that is exactly a width of whole cells |
| TextGrid.RunShows | kernel/drivers/screen.c:44-181 | pixel refinement: after any run of kprint_char, backspace and clear the framebuffer is the rendering of the cell grid driven by the same operations, and no cell at or after the cursor holds ink |
| TextGrid.RunFromClear | kernel/drivers/screen.c:174-181 | the same from any screen contents once it has been cleared to any colour |
| TextGrid.RunDark | kernel/drivers/screen.c:152-181 | with black clears only, every cell of the grid is a character over black |
| TextGrid.PrintIsRun | kernel/drivers/screen.c:90-114 | kprint is one such run, so every run result holds of it |
| TextGrid.RunSound | kernel/drivers/screen.c:97-112 | over all runs the row is aligned, the column is on the screen, the column is zero below the last row, and the cursor sinks at most 16 pixels an operation |
| TextGrid.OffScreenFrozen | kernel/drivers/screen.c:109-112 | once below the last row no operation but clear changes a pixel or brings the cursor back |
| TextLayout.PrintShowsText | kernel/drivers/screen.c:90-114 | kprint of any text without backspaces on a cleared screen: every visible pixel is that of the text broken at newlines and at the screen width, as many rows as fit |
| TextLayout.TypedIsLaid | kernel/drivers/screen.c:98-112 | the cursor stands behind the last row of that layout, or at column zero below the screen |
| TextLayout.LayoutSnoc | kernel/drivers/screen.c:98-107 | the layout, defined on whole lines, grows by one character the way the cursor moves |
| Undo.PrintFits | kernel/drivers/screen.c:116-137 | text that fits on its row appears in its cells, every other pixel unchanged |
| Undo.UndoIff | kernel/drivers/screen.c:116-172 | from every state, printing k plain characters and backspacing k times restores cursor and every pixel exactly when the row is below the screen, or the text fits on it and its cells were black |
| Undo.UndoReached | kernel/drivers/screen.c:116-181 | from every state reached after a black clear, rows unpadded: exactly when the row is below the screen or the text fits on it |
| Undo.ReachedSpanBlack | kernel/drivers/screen.c:116-181 | in every such state the cells from the cursor to the right edge are black |
| LineEditor.Readline | kernel/lib/input.c:23-51 | for every stream of polls with a newline and every capacity of at least one: the buffer holds the edited line and its NUL within capacity, bytes behind the capacity are untouched, and the screen has echoed each key |
| LineEditor.EditFits | kernel/lib/input.c:43-50 | the line is shorter than the capacity and holds no NUL, backspace or newline |
| LineEditor.EditPlain | kernel/lib/input.c:26-48 | plain keys that the line has room for are stored as typed |
| LineEditor.EditFull | kernel/lib/input.c:44-47 | plain keys beyond the capacity are dropped |
| LineEditor.EditBack | kernel/lib/input.c:35-47 | a backspace undoes the key before it |
| LineEditor.EchoIsRun | kernel/lib/input.c:26-48 | the echo of any keys is a run of console operations, so every run result holds of it |
| LineEditor.InStepIff | kernel/lib/input.c:26-48 | from every state: after all key sequences the cursor is at start plus length, the cells show exactly the buffer and every other pixel is unchanged, exactly when nothing can be typed, or the row is visible, the longest line fits on it and its cells are black |
| LineEditor.ReachedInStepIff | kernel/lib/input.c:26-48 | from every state reached after a black clear, rows unpadded: exactly when nothing can be typed, or the row is visible and the longest line fits on it |
| Keyboard.Driver.Handler | kernel/drivers/keyboard.c:142-158 | shift press, shift release, store of the mapped character, and codes that are ignored |
| Keyboard.Driver.GetChar | kernel/drivers/keyboard.c:161-165 | hands out the mailbox and empties it |
| Keyboard.MailboxSafe | kernel/drivers/keyboard.c:140-165 | over every interleaving the characters returned are a subsequence of those stored: none invented, reordered or delivered twice |
| Keyboard.RunKeeps | kernel/drivers/keyboard.c:140-165 | conservation: stored is returned plus in flight plus destroyed, at every point of every run |
| Keyboard.LosslessIff | kernel/drivers/keyboard.c:140-165 | everything stored is returned or in flight exactly when no interrupt overwrote the mailbox or fell between read and clear |
| Keyboard.PoliteLossless | kernel/drivers/keyboard.c:155-164 | stores that find the mailbox empty and the consumer idle lose nothing |
| Typing.StoresTyped | kernel/drivers/keyboard.c:130-158 | the driver stores the mapped character of each storing code, in the layout installed last and shifted exactly when the last shift event was a press |
| Typing.KeyTypes | kernel/drivers/keyboard.c:130-158 | a key that is no shift key types its table entry, shifted while a shift key is held, and leaves shift state and layout alone |
| Typing.ShiftedKeysType | kernel/drivers/keyboard.c:130-158 | keys between press and release of a shift key type their shifted characters, and shift is off afterwards |
| KeyTables.ShiftLetters | kernel/drivers/keyboard.c:67-128 | in every layout shift makes small letters the capitals that 8.3 names have |
| KeyTables.KeysSpellCat | kernel/drivers/keyboard.c:23-37 | in both layouts the same ten keys spell `cat a.txt` and a newline |
| KeyTables.KeysSpellCapitals | kernel/drivers/keyboard.c:23-158 | in both layouts, with shift held, the keys A, Z and 1 type AZ! |
| Typing.ScancodesToLine | kernel/lib/input.c:23-51 | without loss, the line read from the polls is the line the raw scancodes spell |
| Typing.ScancodesToLines | kernel/lib/input.c:23-51 | without loss, all lines of the polls are, one after another, those the raw scancodes spell, but for one whose newline is still on its way |
| CString.Strlen | kernel/lib/string.c:31-37 | the length of the C string |
| CString.Strcmp | kernel/lib/string.c:22-29 | zero exactly for equal strings, and the sign is dictionary order on unsigned bytes |
| Numerals.UintToString | kernel/lib/string.c:50-64 | for every 64-bit number the buffer holds its decimal form at the returned place, at most 20 digits, so the bound on i never cuts it short |
| Numerals.DecimalReads | kernel/lib/string.c:57-60 | the decimal form reads back as the number and has no leading zero |
| Numerals.DecimalUnique | kernel/lib/string.c:54-61 | no other numeral without leading zeros has that value |
| Numerals.DigitsWritten | kernel/drivers/screen.c:26-36 | digits are written as 0 to 9 and A to F |
| Numerals.UtoaHex | kernel/drivers/screen.c:26-38 | 0x and sixteen hexadecimal digits that read back as the number, then a NUL |
| TarHeader.OctalToInt | kernel/drivers/tar.c:25-31 | the value of the run of octal digits, modulo 2 to the 64 |
| TarHeader.PaddedLeast | kernel/drivers/tar.c:50-51 | padding is the least multiple of 512 that holds the data |
| TarHeader.ForwardIff | kernel/drivers/tar.c:50-53 | a header sends the walk forward exactly when stepping over its data does not wrap |
| TarWalk.EndsIff | kernel/drivers/tar.c:40-54 | for every image: the walk ends exactly when it never comes back to a header it has been at |
| TarWalk.StuckImage | kernel/drivers/tar.c:40-54 | an image on which the walk stays at its first header and never ends |
| TarWalk.ForwardWalkEnds | kernel/drivers/tar.c:40-54 | a walk on which no visited header wraps ends |
| TarWalk.ShortFieldsWalk | kernel/drivers/tar.c:40-54 | where the size fields of visited headers end within twelve bytes no step wraps and the walk ends |
| TarWalk.VisitsIncrease | kernel/drivers/tar.c:40-54 | where no step wraps, headers are visited in strictly increasing order, at least a block apart |
| TarWalk.VisitsDistinct | kernel/drivers/tar.c:51-53 | every header visited is a non-empty one on a block boundary within 10 MB, and none is visited twice |
| TarWalk.VisitsAtMost | kernel/drivers/tar.c:40-54 | every walk that ends visits at most 20481 headers |
| TarWalk.VisitsMost | kernel/drivers/tar.c:40-54 | the bound is met: an image whose walk visits exactly 20481 headers |
| Tar.GetFile | kernel/drivers/tar.c:37-73 | whenever the lookup returns: the data offset and size of the first header whose name is the key or "./" and the key, and None when the walk ends without one; on a walk that ends, a file is found exactly when the listing prints its name, plain or after "./" |
| Tar.ListFiles | kernel/drivers/tar.c:58-73 | prints the names of exactly the visited headers, in order, one a line |
| TarArchive.Fetch | kernel/drivers/tar.c:37-56 | on an image that holds a list of files: the bytes and size of the first matching file, and None exactly when no file whose header is within the limit matches |
| TarArchive.VisitsEntries | kernel/drivers/tar.c:40-54 | the walk over a written list ends, and visits as many entries as start within the limit |
| TarArchive.VisitIsEntry | kernel/drivers/tar.c:40-54 | its k-th header is that of the k-th entry: offset, name, size and data |
| TarArchive.EncodeRoundTrip | kernel/drivers/tar.h:24-41 | every list of storable files, each with its own mode, owner, checksum and trailing fields, written as ustar blocks is held by the image |
| Ata.Drive.ReadSector | kernel/drivers/ata.c:30-43 | the registers reassemble to the low 28 bits of the address, and the buffer becomes that sector byte for byte |
| Fat.ClusterPlace | kernel/drivers/fat.c:100-106 | for every usable boot sector and cluster nothing wraps and the address fits in 28 bits |
| Fat.ClustersApart | kernel/drivers/fat.c:100-106 | sector ranges of distinct clusters are disjoint and lie behind the reserved, FAT and root regions |
| FatRegions.FieldsRead | kernel/drivers/fat.h:23-33 | each field of a boot record written in the order of fat_bpb_t, two bytes low byte first, is read back |
| FatRegions.RootFound | kernel/drivers/fat.c:57-61 | the root sector is the one right behind the reserved sectors and all FAT copies, laid out one after another |
| FatRegions.RootLengthFound | kernel/drivers/fat.c:102 | the root directory takes the least number of sectors that hold its entries at 32 bytes each |
| FatRegions.ClusterFound | kernel/drivers/fat.c:100-105 | a cluster's sector is the one that counting clusters from the end of the root directory arrives at |
| Fat.FormatName | kernel/drivers/fat.c:24-48 | the eleven bytes: up to eight before the first dot, up to three after it, upper case, padded |
| Fat.FormattedTyped | kernel/drivers/fat.c:24-48 | for every base without a dot and every extension: base in capitals cut or padded with spaces to eight bytes, extension likewise to three |
| Fat.FormattedBare | kernel/drivers/fat.c:24-48 | a name without a dot gets three spaces for its extension |
| Fat.PrintedRoundTripIff | kernel/drivers/fat.c:24-79 | the text the listing prints for a name formats back to the name exactly when it has no NUL, no small letter, and no dot among the first eight bytes |
| Fat.CaseBlind | kernel/drivers/fat.c:29-45 | inputs that differ only in case format alike |
| Directory.NameMatch | kernel/drivers/fat.c:50-55 | the same eleven bytes, all below 0x80 because the key is signed |
| Directory.Reader.FindFile | kernel/drivers/fat.c:83-98 | cluster and size of the first slot that bears the key in the sector where FatRegions.RootFound has the root directory, or 0 and no size when none does |
| Directory.Reader.ListFiles | kernel/drivers/fat.c:57-81 | prints exactly the live, unlabelled slots before the end mark, in order |
| Directory.SearchSkipsFree | kernel/drivers/fat.c:65-96 | no formatted key selects a slot that starts with 0x00 or 0xE5; a slot it selects is listed exactly when no end mark stands before it and it is no volume label |
| Directory.PrintedFindsIff | kernel/drivers/fat.c:24-96 | the text the listing prints for a slot finds that slot exactly when its name is canonical and seven-bit and no earlier slot has it |
| Directory.SearchSeesMore | kernel/drivers/fat.c:91-96 | two directories in which the search finds a slot the listing does not show |
| Directory.Reader.ReadFile | kernel/drivers/fat.c:100-107 | the buffer becomes the first sector of the cluster |
| FatImage.ImageStores | kernel/drivers/fat.h:23-60 | a disk that starts with the volume's image (boot sector, reserved sectors, FAT copies, root directory, clusters, one after another) stores the volume: boot sector, directory and every file's data are where the arithmetic looks |
| FatImage.FilledFits | kernel/drivers/fat.h:23-60 | every volume has such an image |
| FatImage.SearchFinds | kernel/drivers/fat.c:83-98 | searching the written directory is searching the list of entries, deleted ones and labels among them, for the first with that seven-bit name |
| FatImage.ListingShows | kernel/drivers/fat.c:57-81 | listing the written directory, whatever the other attribute bits, shows exactly the names of the entries that are neither deleted nor volume labels, in order |
| Shell.CmdCat | kernel/shell.c:52-76 | usage line, as many bytes as the first entry with the name claims and a line feed, or the not-found message |
| Shell.ContentsSettledIff | kernel/shell.c:64-71 | the bytes cat prints do not depend on memory behind its buffer exactly when the entry claims at most 512 bytes |
| Shell.CatVolume | kernel/shell.c:52-76 | the on-disk round trip: on a disk that stores a volume, cat shows exactly the bytes of the first entry with the name, and not-found for exactly the names that are absent or hold no data |
| Shell.CatTyped | kernel/shell.c:52-76 | the same for a name typed as base, dot and extension: the entry named by both in capitals, padded with spaces |
| Shell.Split | kernel/shell.c:144-151 | cuts the line at its first space in place; word, space and arguments make up the line |
| Shell.Dispatch | kernel/shell.c:153-160 | the command with that name, and None exactly for words that name no command |
| CommandLines.ClearLine | kernel/shell.c:32-34 | the word `clear`, with or without text behind it, clears the screen to black |
| CommandLines.HelpLine | kernel/shell.c:36-45 | `help` prints its eight lines in white |
| CommandLines.LsLine | kernel/shell.c:47-50 | `ls` prints the drive in cyan and each listed name in green on its line |
| CommandLines.CatLineShows | kernel/shell.c:52-76 | `cat` prints its usage, the file in green, or in red that there is none |
| CommandLines.CdLine | kernel/shell.c:78-84 | `cd` prints the drive, or in red that there is no such directory |
| CommandLines.LayoutLine | kernel/shell.c:86-99 | `layout` prints what was set, or the list of layouts |
| CommandLines.LayoutInstalled | kernel/shell.c:86-99 | `layout fr_ca` and `layout en_us` install that layout, any other text none |
| CommandLines.UptimeLine | kernel/shell.c:101-110 | `uptime` prints decimal numbers that read back as the whole hundreds of the ticks and as the ticks |
| CommandLines.EchoLine | kernel/shell.c:112-115 | `echo` prints its text and a newline in white |
| CommandLines.RebootLine | kernel/shell.c:117-121 | `reboot` prints its message |
| CommandLines.EndsRunIff | kernel/shell.c:117-168 | a line ends a run exactly when its word is `reboot` |
| CommandLines.UnknownLine | kernel/shell.c:162-166 | any other non-empty line gets its word quoted in a complaint in red |
| Session.Turn | kernel/shell.c:138-166 | one turn: prompt, line, lookup, then the output and the layout of that command, the complaint about an unknown word, or nothing for an empty line |
| ShellRun.KernelShell | kernel/shell.c:135-168 | on one stream of polls: screens and layouts of all turns, each on the keys the one before it left, for every line of the stream or up to reboot |
| ShellRun.TypeSession | kernel/shell.c:135-168 | a whole session from one stream of scancodes delivered without loss: the lines the scancodes spell decide every screen and the layout, with no trace of the polling |
| LayoutChanges.InstallsAsked | kernel/shell.c:86-99 | with the shell as consumer, over every interleaving: the layouts installed in the driver are those that the lines read so far ask for, in order, at most the last still to come |
| LayoutChanges.CourseLayout | kernel/shell.c:86-168 | at every prompt of a session the layout is the last one that the lines before it ask for |
| LayoutChanges.LayoutsAgree | kernel/shell.c:86-168 | so the layout that maps the next scancode is the one the session is left with |
| ShellRun.NextScreenNonNul | kernel/lib/input.c:26-29 | polls that find no key change neither the line nor the screen of a turn |
| Session.TypeCat | kernel/shell.c:138-167 | from scancodes that spell cat and a name, delivered without loss, to that file's bytes on the screen |
| Commands.Perform | kernel/shell.c:32-133 | screen and keyboard layout after each of the nine commands |
| Commands.CmdUptime | kernel/shell.c:101-110 | seconds and ticks in decimal, each in its colour |
| Prompt.SetUp | kernel/kernel.c:54-68 | gdt_init, idt_init and kmain report in green that GDT, IDT and interrupts are ready; boot sector read, en_us installed |
| Prompt.Start | kernel/kernel.c:52-78 | the screen as the shell is started: cleared, the three reports, and the bytes of ./motd.txt if the ramdisk has it |
| Prompt.StartedText | kernel/kernel.c:52-68 | the three reports, word for word and in green, on a screen cleared to black |
| Prompt.StartedMotd | kernel/kernel.c:70-78 | the message of the day after them in magenta, without its NULs, and a newline |
| Prompt.Kmain | kernel/kernel.c:52-80 | start-up and shell on one stream of polls: the screens are those of a session |
| Prompt.PromptReached | kernel/shell.c:138-166 | before every prompt of every session the screen is one reached after a black clear, with the cursor at the start of a row |
| Prompt.LineShown | kernel/shell.c:139-140 | from every reached state at the start of a visible row, at least 129 columns, for all keys of a line: afterwards that row shows `> ` and the edited line, every other pixel is unchanged, and the cursor is at the start of the next row |
| Prompt.PromptLineShown | kernel/shell.c:139-140 | the same at every prompt of every session |
| Prompt.PromptInStepIff | kernel/shell.c:139-140 | at every prompt of every session, rows unpadded, with the 128-byte buffer, screen and buffer agree for all keys exactly when the prompt's row is on the screen and that is at least 129 columns wide |
| Timer.Pit.PrepareSleep | kernel/drivers/timer.c:52-59 | the two byte writes load one count: the 32-bit product cut off at 0xFFFF |
| Timer.Pit.SafeSleep | kernel/drivers/timer.c:69-77 | ends; the counts loaded are those of the chunks, each uncut and none zero unless the time is, and total 1193 a millisecond |
| Timer.ChunksAddUp | kernel/drivers/timer.c:69-77 | the chunks add up to the time asked for, all but the last are 50 ms, none is above that and none zero unless the time is |
| Timer.CountExactIff | kernel/drivers/timer.c:52-59 | the count loaded is the exact time up to 54 ms and for no longer time |
| Timer.CountsConserved | kernel/drivers/timer.c:52-77 | counts of chunks of at most 50 ms fit in sixteen bits, are zero for no chunk but an empty one, and total 1193 a millisecond |
| Interrupts.HandlerSeesFrame | kernel/arch/x86_64/idt.h:23-30 | both stub forms hand over a pointer to a frame with every field at its offset |
| Interrupts.FrameFields | kernel/arch/x86_64/idt.h:23-30 | the same field by field, from r15 at offset 0 to rbp, vector and error code |
| Interrupts.Transparent | kernel/arch/x86_64/interrupts.s:23-75 | for every machine state and every handler that, called there, returns and leaves the stub's slots and the hardware frame alone: iretq finds all fifteen registers restored, rsp at the intact five-quadword hardware frame, and all memory as the handler left it |
| Interrupts.OnlyUpdates | kernel/arch/x86_64/interrupts.s:23-75 | an interrupt whose handler updates one variable outside the stack in use, as timer_handler does, changes that variable and nothing else outside the stub's slots |
| Interrupts.Processor.TakeInterrupt | kernel/arch/x86_64/interrupts.s:38-75 | the same of a processor that steps through the stub in place |

## Left out

- Emit: the wrap test and drawing that kprint and kprint_char both end with are written once.
- RunSound: the cursor row is an unbounded integer; its growth bound shows that the 32-bit `cursor_y` cannot overflow before about 2^27 operations after a clear.
- Perform: `reboot` ends after its message; the reset it asks the keyboard controller for is not modelled.
- Driver.Init: `keyboard_init` only installs its layout; scancodes it drains from the controller never reach the handler.
- SayLines: the consecutive `kprint` calls of `help` and of `layout` are one loop over their texts.
- CmdCat: memory behind the 512-byte buffer is the parameter `behind`, taken not to change while `cat` prints; a boot sector without a sector size, on which the division traps, is excluded when there is a cluster to look up.
- Readline: a capacity of zero, which no caller passes, is not modelled.
- Transparent: stack addresses do not wrap, and `iretq` itself is not executed.
- Start: a ramdisk module is loaded, and the lookup of `./motd.txt` in it returns.
- Archives whose size field starts with a space, link entries, and the ustar `prefix` field: the reader treats every header alike.
- `put_char_bg`, `kprint_at` and the crash screen (text over a background at fixed places, then a halt), `strcpy` (a byte copy), `timer_init` (the divisor for 100 Hz), `sleep` (a busy wait on the tick count).
- Port I/O, busy waits, GDT, IDT and PIC set-up apart from the lines they print, boot and module discovery: hardware behaviour and straight-line constants.
- Files of several clusters, subdirectories and more than sixteen root entries: the reader does not support them.
