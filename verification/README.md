# A Dafny model of LanternOS: storage, terminal and formatting

LanternOS keeps its file system as one ustar archive in memory (`tarBuf`). A descriptor table holds raw
pointers into that archive, the ATA disk behind it is written back when a dirty descriptor is closed, and a
text terminal, a keyboard queue, line editing and a small printf/scanf pair make up the user's side. This
project models that code in Dafny and proves what it keeps over whole runs.

Every C file that works in place appears as a class or as methods over arrays with the source's own loops, and
each method is proved against a specification function. The theorems are then proved about those functions.

| file | what it holds |
|---|---|
| `Bytes.dfy`, `Numbers.dfy` | bytes, C strings, patches; numerals in base 8, 10 and 16 and every conversion loop |
| `Dictionary.dfy`, `Archive.dfy`, `ArchiveRuns.dfy` | the ordered dictionary; the archive as bytes, its invariant, and what each operation refines; runs |
| `UstarLayout.dfy`, `ElfLayout.dfy` | the field tables of POSIX and of the System V ABI, against which the offsets are proved |
| `Ustar.dfy` | the class over `tarBuf` and the disk: the code of `src/ustar.c` |
| `Descriptors.dfy`, `DescriptorRuns.dfy`, `DescriptorLaws.dfy` | the descriptor table as a state machine; the invariant over runs; what the calls mean to each other |
| `ReadPieces.dfy`, `WriteBack.dfy`, `Truncation.dfy` | reading in pieces; disk coherence; what `O_TRUNC` does to other descriptors |
| `Fd.dfy` | the class over archive, table and screen: the code of `src/fd.c` |
| `Terminal.dfy`, `Keyboard.dfy` | the screen as a window on a log; the interrupt-driven ring buffer |
| `Stdin.dfy`, `Console.dfy`, `KeyboardLines.dfy` | the two line editors and the reads behind them; from interrupts to lines |
| `Format.dfy`, `Date.dfy` | the printer and scanner; Unix time to Gregorian date |
| `Loader.dfy`, `Programs.dfy`, `Tokenizer.dfy` | the ELF segment loader, and the loader on a file of the archive; the shell's in-place tokenizer |

How the parts fit: a byte buffer `s` is a good archive (`WellFormed`) when it is a chain of exact segments
(header, data, padding) followed by at least one block of zeros. `Chained` and `Parse` say the same by walking
the bytes, and `WalkMeetsSegments` proves the two equal. `Files(s)` is the ordered dictionary the archive
stands for. A name such as `RmImage`, `OpenStep` or `KRead` is the specification of one C function; the
method of the same C name ends in exactly that state.

## What the code does that its comments or callers would not expect

- `tarEdit` (src/ustar.c:256-266) returns as soon as `tarTouch` reports a creation. When names are unique, that
  is always, so the file ends up empty: the data asked for is stored if and only if it is empty
  (`EditStoresIff`, with a concrete archive in `EditLosesData`). The contract its last lines were written for
  is proved separately (`StoreTailRefines`).
- `open` with `O_TRUNC` goes through `tarEdit`, which moves files. Another descriptor stays good exactly when
  its file stands before the truncated one (`TruncKeepsIff`; a concrete loss in `TruncMovesOther`).
- `open` marks nothing dirty, so with `O_CREAT` or `O_TRUNC` the disk can fall behind. It keeps up exactly when
  there is no file and none is asked for, or there is one that is not truncated or is the last entry, as
  `tarTouch` made it (`OpenAgreesIff`; concrete losses in `CreateBreaksAgreement` and `TruncBreaksAgreement`).
- `tarTouch` does not check for room. Its header always lands inside the buffer, but the archive stays good exactly
  when a block of zeros is left behind it (`TouchKeepsIff`; a full archive in `TouchBreaksFull`).
- `read` on descriptor 0 ignores its count: it stores the whole line typed and a NUL, so it returns at most the
  count exactly when the line is no longer (`Fd.Table.Read`; the line of `CountIsIgnored` has two bytes).
- `readStdinLine` checks no bound. Its stores stay inside the 256 bytes if and only if the line fits
  (`StoresFitIff`), so no sequence of reads overruns the buffer if and only if every line typed fits
  (`ReadsFitIff`). A line of 255 letters does not (`LongLineOverruns`).
- `vsfmtGet` undoes `vsfmtWrite` on ints other than 0 if and only if no number is directly followed by a digit
  (`ScanUndoesPrintIff`).
- `read` and `write` compare `rwPos + count` in 32 bits; the clamp is the minimum it is meant to be exactly when
  that sum does not wrap (`ClampIsMinIff`; a concrete wrap in `ClampWraps`), and a wrapping transfer always leaves
  the archive buffer (`TransferStaysIff`). `NoWrap` is that guard.
- `"%d%d"` scans back exactly the pairs whose second number is negative, and the pair 0 and 0
  (`AdjacentNumbersIff`, `OneTwoIsLost`).
- The scanner does not read the `%` that `"%%"` prints: a number behind it scans back only if it is 0
  (`PercentScansBackIff`).
- The scanner knows no flags and no widths: a number printed with either never scans back with the same format
  (`SameFormatScansBackIff`), because such a conversion stores nothing (`WidthStoresNothing`).
- The comment at src/syscalls.c:106 says `stdinBufLen` excludes the newline; the code includes it, and the model
  follows the code. The comment at include/ustar.h:6 says 64 kb; 1024 sectors are 512 KiB. The model's buffer
  is any multiple of 512 bytes below 2 GiB.
- `fdInit` and `close` leave the `dirty` mark of a slot as it was; `open` clears it.
- `"%05d"` puts the zeros in front of a minus sign; which padded texts a plain `"%d"` reads back is
  `PaddedScansBackIff`, and which ones `atoi` reads back is `AtoiOfPaddedIff`.

## Model

| member | source | states |
|---|---|---|
| `Bytes.CharactersAreText` | src/io.c:190-334 | The byte constants are the characters the source writes in quotes |
| `Bytes.BlocksIsLeast` | src/ustar.c:8 | ceilDiv(x, 512) is the least number of blocks that hold x bytes |
| `Numbers.BaseArithmetic` | src/ustar.c:53-94 | The three operations are multiplication, division and remainder by 8, 10 or 16 |
| `Numbers.DigitsAreText` | src/io.c:288-300 | Digit d is the d-th character of "0123456789ABCDEF", both when it is written and when it is read |
| `Numbers.IntTextIsSigned` | src/io.c:264-286 | A negative int prints as a minus sign and its absolute value |
| `Numbers.ValueOfText` | src/ustar.c:64-87 | Reading back the digits of any number gives that number, in base 8, 10 and 16 |
| `Numbers.ValueOfPadded` | src/ustar.c:89-94 | A zero-padded field of width w gives n back if and only if n < base^w |
| `Numbers.NumeralLength` | src/io.c:264-312 | n has at most w digits if and only if n < base^w: the bound of every scratch array |
| `Numbers.Oct2Bin` | src/ustar.c:53-62 | The loop returns the value of the octal digits, with no 32-bit overflow on the way |
| `Numbers.EmitDigits` | src/ustar.c:72-78 | The digit loop leaves the numeral backwards in the scratch array and never leaves the array |
| `Numbers.EmitReversed` | src/ustar.c:80-85 | The copy-back loop writes the scratch array in reverse and touches nothing else |
| `Numbers.Bin2Oct` | src/ustar.c:64-87 | The string is the canonical octal text and its NUL; the 12-byte scratch is enough |
| `Numbers.Bin2OctPadded` | src/ustar.c:89-94 | Exactly width octal digits are written, the rest of the buffer is unchanged |
| `Numbers.OctalRoundTrips` | src/ustar.c:53-94 | For every n below 2^31: oct2bin undoes bin2oct, and undoes bin2oct_padded at width w iff n < 8^w; 11 digits always do |
| `Numbers.AtoiOfIntText` | src/io.c:246-286 | atoi undoes intToStr on every int, and stops right behind the number whatever non-digit follows |
| `Numbers.IntTextLength` | src/io.c:275 | An int other than the least prints in at most 11 characters |
| `Numbers.ReadDigits` | src/io.c:256-259 | The loop returns the value of the maximal digit run and needs no larger int on the way |
| `Numbers.Atoi` | src/io.c:246-262 | Optional minus sign, then the value of the digit run |
| `Numbers.IntToStr` | src/io.c:264-286 | The destination starts with the decimal text of n and is otherwise unchanged; the length is returned |
| `Numbers.HexTextMeaning` | src/io.c:288-312 | hexToStr preserves the value and emits max(digits, min(width, 8)) characters, never more than 8 |
| `Numbers.PadScratch` | src/io.c:302-305 | The padding loop adds zeros up to min(width, 8) and stays in the nine bytes |
| `Numbers.HexScratch` | src/io.c:288-305 | The scratch array holds the padded hex text backwards |
| `Numbers.HexToStr` | src/io.c:288-312 | The padded hex text is written at its place, the rest is unchanged, and its length is returned |
| `Dictionary.RemoveLookup` | src/ustar.c:212-232 | After a removal only the removed name looks up differently; names stay unique |
| `Dictionary.TouchLookup` | src/ustar.c:234-254 | After a touch only a missing name looks up differently, as an empty file; names stay unique |
| `Dictionary.StoreLookup` | src/fd.c:76-98 | After a store only that name looks up differently; names stay unique |
| `Archive.WalkMeetsSegments` | src/ustar.c:116-143 | The invariant holds exactly when the header walk is well defined, and the walk meets exactly the archive's segments |
| `Archive.NextIsFirstBoundary` | src/ustar.c:116-121 | The next header is at the first 512-byte boundary at or behind the end of the data |
| `UstarLayout.HeaderReads` | include/ustar.h:19-37 | On a block built of the fields of the POSIX table in order: name, size, validity and magic are read from exactly their fields |
| `UstarLayout.NewOwner` | src/ustar.c:240-243 | A new header says its name, mode 0777, user 0 and group 0, in their fields |
| `UstarLayout.NewSize` | src/ustar.c:244-251 | It says size 0, no modification time, and a checksum of spaces |
| `UstarLayout.NewKind` | src/ustar.c:245-250 | It says a regular file, "ustar" version "00", owner and group "root", and nothing else |
| `Archive.EncodeOfParse` | src/ustar.c:116-143 | Writing out what the walk reads gives the same bytes |
| `Archive.ParseOfEncode` | src/ustar.c:116-143 | Any good segments that fit are read back by the walk, one by one |
| `Archive.Suffix` | src/ustar.c:124-132 | From any segment on, the rest is again a good archive, and a valid header is there iff segments are left |
| `Archive.At` | src/ustar.c:116-121 | At its offset each segment shows its own header and bytes, and the next offset is its end |
| `Archive.DataOf` | src/ustar.c:146-151 | 512 bytes behind a header lie exactly the bytes of its file |
| `Archive.RmRefines` | src/ustar.c:212-232 | Deletion is list removal: the first match is gone, all other headers and data are byte-identical and in order, the tail is zero |
| `Archive.TouchRefines` | src/ustar.c:234-254 | Creation appends one empty file and keeps every old segment in place |
| `Archive.TouchKeepsIff` | src/ustar.c:239-251 | After a creation the archive is good if and only if a zero block is left behind the new header |
| `Archive.PatchRefines` | src/fd.c:89-95 | A store inside the data of one file changes those bytes of that file and nothing else |
| `Archive.EditRefines` | src/ustar.c:256-266 | With one file of that name tarEdit removes it and appends an empty one, whatever the data; unique names stay unique |
| `Archive.EditStoresIff` | src/ustar.c:256-266 | The data asked for is stored if and only if it is empty; every other file is unchanged |
| `Archive.EditLosesData` | src/ustar.c:258-260 | A concrete archive on which an edit to one byte leaves the file empty |
| `Archive.RoomAfterRm` | src/ustar.c:259-260 | After a removal there is always room to touch the same name |
| `Archive.EditOfDuplicate` | src/ustar.c:256-266 | With a second file of that name, last and empty, tarEdit reaches its tail and stores exactly the data |
| `Archive.StoreTailRefines` | src/ustar.c:261-264 | The intended contract of the tail: on a fresh last entry with room, the file then holds exactly the data and the invariant is restored |
| `ArchiveRuns.ChainEndIsUsed` | src/ustar.c:124-132 | The chain ends where the file sizes of the dictionary say |
| `ArchiveRuns.ReadIsLookup` | src/ustar.c:146-151 | The bytes tarRead exposes are the dictionary's entry, or it finds none in both |
| `ArchiveRuns.TouchBreaksFull` | src/ustar.c:239-251 | A full archive in a buffer of 1024 sectors, which a creation breaks |
| `ArchiveRuns.StepRefines` | src/ustar.c:146-266 | One operation on the bytes gives the dictionary's new files and the dictionary's answer |
| `ArchiveRuns.RunRefines` | src/ustar.c:134-272 | Every feasible run of rm, touch, edit and read keeps the full invariant and answers as the dictionary does |
| `Ustar.Tar.constructor` | src/ustar.c:9 | An all-zero buffer is a good archive without files |
| `Ustar.Tar.TarValid` | src/ustar.c:105-113 | True iff the magic is there and the entry is no directory |
| `Ustar.Tar.TarNext` | src/ustar.c:116-121 | The next header: the first 512-byte boundary at or behind the end of the data, with no overflow |
| `Ustar.Tar.TarGetEnd` | src/ustar.c:124-132 | The walk ends, inside the buffer, at the end of the chain |
| `Ustar.Tar.TarFind` | src/ustar.c:134-143 | The header of the first file of that name, or nothing |
| `Ustar.Tar.TarRead` | src/ustar.c:146-151 | -1 iff the dictionary has no such file; else its size and where exactly its bytes are |
| `Ustar.Tar.TarGetSize` | src/ustar.c:268-272 | The size of the dictionary's entry, 0 when there is none |
| `Ustar.Tar.ShiftLeft` | src/ustar.c:225-229 | The in-place byte-by-byte shift and zero fill equal cutting the bytes out at once |
| `Ustar.Tar.TarRm` | src/ustar.c:212-232 | The buffer is the image of list removal, unchanged when the name is absent, and stays good; 1 iff the file was there |
| `Ustar.Tar.WriteHeader` | src/ustar.c:240-251 | On a zero block the stores leave exactly the new header and nothing else |
| `Ustar.Tar.TarTouch` | src/ustar.c:234-254 | The buffer is the image of appending an empty file, room or not, and stays good iff there was room; 0 iff the file was there |
| `Ustar.Tar.StoreAt` | src/ustar.c:262-264 | The size field and the data bytes are replaced and nothing else |
| `Ustar.Tar.TarEdit` | src/ustar.c:256-266 | The buffer is the image of the edit exactly as coded, early return included; the result is always 1 |
| `Ustar.Tar.AtaWrite` | src/ata.c:107-123 | One sector then holds the 512 bytes, low byte first; all other sectors are unchanged |
| `Ustar.Tar.AtaRead` | src/ata.c:95-106 | 512 bytes of the buffer become the sector's; the others are unchanged |
| `Ustar.DiskImageAt` | src/ustar.c:200-206 | Sector 101 + j holds the 512 bytes from 512 * j on, two to a word, low byte first |
| `Ustar.Tar.TarFlush` | src/ustar.c:204-206 | After it the disk image is the buffer, byte for byte |
| `Ustar.Tar.TarLoad` | src/ustar.c:200-202 | After it the buffer is the disk image, byte for byte |
| `Descriptors.ClampIsMinIff` | src/fd.c:66 | The clamp is min(count, size - rwPos) if and only if the 32-bit sum does not wrap |
| `Descriptors.ClampWraps` | src/fd.c:66 | A concrete wrap: one byte is left, yet 2^32 - 1 go through |
| `Descriptors.TransferFits` | src/fd.c:66-68 | Without a wrap the transfer is that minimum and stays inside the archive |
| `Descriptors.TransferStaysIff` | src/fd.c:66-72 | A transfer stays inside the archive buffer if and only if the 32-bit sum does not wrap |
| `DescriptorRuns.TouchKeepsEntries` | src/ustar.c:234-254 | Appending an entry moves and resizes no other one |
| `DescriptorRuns.LocatedData` | src/fd.c:42-43 | A located descriptor points at the bytes of the entry bearing its name, inside the buffer |
| `DescriptorRuns.OpenKeeps` | src/fd.c:22-50 | open without O_TRUNC keeps the invariant even when it appends; it takes a free slot or returns -1, and creates at most that file |
| `DescriptorRuns.WriteRefinesStore` | src/fd.c:84-97 | write replaces bytes [rwPos, rwPos+k) of that one file; all headers, sizes, names and other segments are byte-identical |
| `DescriptorRuns.WriteKeeps` | src/fd.c:84-97 | write keeps the descriptor invariant of all eight slots |
| `DescriptorRuns.ReadIsSlice` | src/fd.c:61-73 | read returns the next k bytes of the dictionary's entry, k the minimum of what is asked and what is left |
| `DescriptorRuns.ReadKeeps` | src/fd.c:61-73 | read moves its own position by k and changes nothing else |
| `DescriptorRuns.StepKeeps` | src/fd.c:22-113 | Each of the four calls keeps archive, unique names and all eight descriptors good |
| `DescriptorRuns.RunKeeps` | src/fd.c:22-113 | In every state of every run each open descriptor points at its entry, has its size, and rwPos <= size |
| `DescriptorLaws.CloseFrees` | src/fd.c:100-113 | close fails exactly on what is not open; else it frees and resets that slot alone, leaves the archive, and writes it to the disk iff the descriptor was dirty |
| `DescriptorLaws.OpenFailsIff` | src/fd.c:25-41 | open returns -1 if and only if there is neither a file nor O_CREAT, or all eight slots are in use |
| `DescriptorLaws.OpenReturns` | src/fd.c:36-49 | The descriptor returned is the lowest free slot, at the start of its file, clean, with the flags given; no other slot changes |
| `DescriptorLaws.OpenCloseIsNothing` | src/fd.c:22-113 | Opening an existing file and closing it leaves archive, disk and free slots as they were |
| `DescriptorLaws.OpenClosesSucceed` | src/fd.c:22-113 | With one free slot, any number of such pairs succeeds |
| `DescriptorLaws.NotOpenFails` | src/fd.c:58-63 | read and write return -1 and change nothing on a descriptor that is not open |
| `DescriptorLaws.WriteMoves` | src/fd.c:84-97 | write moves its own position by what it wrote, makes that descriptor dirty, and touches no other slot and not the disk |
| `DescriptorLaws.WritesJoin` | src/fd.c:84-97 | Writing in pieces equals writing whole: the same count, file contents and position |
| `DescriptorLaws.FlagIsBit` | src/fd.c:26-32 | O_CREAT and O_TRUNC are the bits of value 4 and 8 |
| `ReadPieces.OpenedPiecesAreWhole` | src/fd.c:22-73 | From a fresh open on, any sequence of reads returns the head of the dictionary's entry, as long as the counts add up to |
| `ReadPieces.PiecesAreWhole` | src/fd.c:61-73 | Any sequence of reads returns consecutive slices that join to one slice of the whole file |
| `WriteBack.StepCoherent` | src/fd.c:76-113 | Each call that creates nothing keeps: disk equals archive unless an open descriptor is dirty |
| `WriteBack.RunCoherent` | src/fd.c:76-113 | That holds in every state of every run that creates nothing |
| `WriteBack.TruncIsNothingIff` | src/fd.c:32-35 | Truncating leaves the archive as it is if and only if the file is the last entry and still as tarTouch made it |
| `WriteBack.OpenAgreesIff` | src/fd.c:22-50 | With any flags: disk and archive still agree after open if and only if there was nothing to create and nothing to truncate away |
| `WriteBack.CreateBreaksAgreement` | src/fd.c:25-31 | A concrete creation after which the disk is behind and no descriptor is dirty |
| `WriteBack.TruncBreaksAgreement` | src/fd.c:32-35 | A concrete truncation that creates nothing, after which the disk is behind and no descriptor is dirty |
| `WriteBack.CloseFlushes` | src/fd.c:105 | After write and close, loading the disk gives the archive as written, and a good table |
| `WriteBack.WrittenBytesComeBack` | src/fd.c:76-113 | Write, close, tarLoad, reopen and read return the bytes written, in an otherwise unchanged file |
| `Truncation.TruncKeepsIff` | src/fd.c:32-35 | After O_TRUNC a descriptor is still good iff its file stands before the truncated one, or it is the truncated one, last and already empty |
| `Truncation.TruncMovesLater` | src/fd.c:32-35 | Every descriptor on a file behind the truncated one is stale |
| `Truncation.TruncMovesOther` | src/fd.c:32-35 | A concrete archive of two files on which truncating one breaks the descriptor of the other |
| `Fd.Table.FdInit` | src/fd.c:10-20 | All slots are closed; archive and disk are unchanged; dirty marks stay |
| `Fd.Table.FindOrMake` | src/fd.c:24-35 | The header found is that of the requested file in the archive after creating and truncating as asked |
| `Fd.Table.FindSlot` | src/fd.c:36-39 | The first slot not in use, or the table's size |
| `Fd.Table.Open` | src/fd.c:22-50 | New archive, table and result are those of the open step |
| `Fd.Table.CopyOut` | src/fd.c:69-72 | The copy loop moves exactly n bytes out and rwPos by n |
| `Fd.Table.StrLen` | src/fd.c:55 | The position of the first NUL |
| `Fd.Table.ReadStdin` | src/fd.c:53-57 | Descriptor 0: the line typed with its NUL, its length returned, its echo on the terminal, no file touched |
| `Fd.Table.ReadFile` | src/fd.c:58-73 | Result, bytes delivered, table, and the untouched rest of the target are those of the read step |
| `Fd.Table.Read` | src/fd.c:52-74 | Both: the line typed on descriptor 0, the read step on every other |
| `Fd.Table.CopyIn` | src/fd.c:91-94 | The copy loop patches exactly the bytes given and moves rwPos by their number |
| `Fd.Table.WriteScreen` | src/fd.c:77-80 | Descriptors 1 and 2 put every character on the terminal, in order, and touch no file |
| `Fd.Table.Write` | src/fd.c:76-98 | New archive, table and result are those of the write step, or the output goes to the terminal |
| `Fd.Table.Close` | src/fd.c:100-113 | New disk, table and result are those of the close step: flushed iff dirty, slot freed |
| `Terminal.HistoryIsFrozen` | src/io.c:35-52 | No output ever changes a row that has scrolled off |
| `Terminal.PlainTextLands` | src/io.c:201-219 | Plain text lands cell by cell in order, across wraps and scrolls, and changes no earlier cell |
| `Terminal.ClearedIsBlank` | src/io.c:230-241 | Clearing blanks the 25 rows shown, puts the cursor at the top left, and keeps the rows above |
| `Terminal.BackspaceGoesBack` | src/io.c:195-206 | A backspace goes back one cell, across row ends but not above the screen, and blanks that cell alone |
| `Terminal.NewlineStartsRow` | src/io.c:191-194 | A newline goes to the start of the next row, changes no cell, and a row it opens is blank |
| `Terminal.BackspaceUndoesIff` | src/io.c:195-206 | Backspace takes back the cursor move of a plain character always, and its cell iff it overwrote a blank |
| `Terminal.Screen.Scroll` | src/io.c:35-52 | The top-down in-place row copy equals a simultaneous shift by one row, then a blank row |
| `Terminal.Screen.ScrollWindow` | src/io.c:35-52 | A scrolled screen shows the last 25 rows of the log with one blank row more |
| `Terminal.Screen.WriteChar` | src/io.c:190-223 | Any character keeps the 80x25 cells equal to the last 25 rows of the log, the cursor on the screen and at the log's position |
| `Terminal.Screen.WriteStr` | src/io.c:225-228 | The same for a string: the log is extended by all of it |
| `Terminal.Screen.ClearScreen` | src/io.c:230-241 | The window becomes blank, the cursor goes home, the history stays |
| `Stdin.EchoAgrees` | src/syscalls.c:83-109 | After any editing the cells before the cursor hold exactly the edited text, from where the line began, across wraps and scrolls |
| `Stdin.BackspaceErasesOwnText` | src/syscalls.c:93-98 | An echoed backspace never meets the top-left clamp and erases the last character of this line |
| `Stdin.LineIsOnScreen` | src/syscalls.c:83-109 | When the newline comes, buffer and screen hold the same text |
| `Stdin.LinesSplit` | src/syscalls.c:83-109 | A line of keys is worth its edited text and a newline, and every key behind its end still counts |
| `Stdin.LinesOfPart` | src/syscalls.c:83-109 | Keys that end no line are worth nothing yet |
| `Stdin.KReadConserves` | src/syscalls.c:119-131 | What a read returns and what remains to be read is always the same text |
| `Stdin.KReadStaysInLine` | src/syscalls.c:124-130 | No read crosses a line, and a positive count always returns something |
| `Stdin.StoresFitIff` | src/syscalls.c:83-109 | Every store for a line is inside the 256 bytes if and only if the line fits: 256 characters while editing, 254 at its end |
| `Stdin.LongLineOverruns` | src/syscalls.c:100-107 | A concrete line of 255 letters, whose NUL goes behind the buffer |
| `Stdin.KReadKeepsFit` | src/syscalls.c:119-131 | When every line fits, a read meets a line that fits, and every line left fits |
| `Stdin.ReadsFitIff` | src/syscalls.c:83-131 | No read of any sequence overruns the buffer if and only if every line typed fits |
| `Stdin.ChunksDoNotMatter` | src/syscalls.c:119-131 | Whatever the counts, the bytes the model returns are a prefix of the edited lines joined with newlines; when every line fits, no read overruns the buffer |
| `Stdin.Input.EditKey` | src/syscalls.c:93-102 | One keystroke keeps buffer and echo in step with the edited text |
| `Stdin.Input.EditKeys` | src/syscalls.c:85-103 | The loop leaves the edited text in the buffer and its echo on the terminal, and consumes just the line |
| `Stdin.Input.ReadStdinLine` | src/syscalls.c:83-109 | The buffer holds the edited line, its newline and a NUL; exactly the keys behind the line's end stay pending |
| `Stdin.Input.KReadStdin` | src/syscalls.c:119-131 | State and bytes are those of the read step; a ready line always has unread bytes |
| `Keyboard.Decode` | src/io.c:54-148 | Only bytes from 1 to 127 are ever stored |
| `Keyboard.UsLayout` | src/io.c:21-26 | Row by row, which text the keys type: "1234567890-=", "qwertyuiop[]", ... |
| `Keyboard.UsLayoutShifted` | src/io.c:28-33 | The same with exactly one of Shift and Caps Lock on |
| `Keyboard.OtherKeys` | src/io.c:21-135 | Space, Tab, Backspace and Escape; Alt and all keys without an entry store nothing |
| `Keyboard.KeysHeld` | src/io.c:70-99 | What Shift, Ctrl, Caps Lock and each arrow set while they are pressed |
| `Keyboard.OtherReleases` | src/io.c:59-68 | Letting go of any other key does nothing |
| `Keyboard.LettersFollowShift` | src/io.c:21-134 | Every letter key stores upper case iff exactly one of Shift and Caps Lock is on, else lower case |
| `Keyboard.ControlStoresNothing` | src/io.c:103-125 | With Ctrl held no key stores a byte; only Ctrl+L clears the screen and only Ctrl+D sets the end-of-input mark |
| `Keyboard.PressAndRelease` | src/io.c:58-99 | Pressing and releasing Shift, Ctrl or an arrow leaves it released and every other flag as it was |
| `Keyboard.PushAppends` | src/io.c:136-141 | The handler appends one byte iff fewer than 255 are pending, else it changes nothing |
| `Keyboard.PopDrops` | src/io.c:152-154 | Advancing tail drops exactly the oldest unread byte |
| `Keyboard.HandlerKeeps` | src/io.c:54-148 | A whole interrupt at any point keeps the invariant and every unread byte, and does not touch tail |
| `Keyboard.ReaderKeeps` | src/io.c:149-155 | Each single step of getInput keeps the invariant |
| `Keyboard.EveryInterleaving` | src/io.c:54-155 | In every interleaving the bytes returned are in order a prefix of those accepted, at most 255 pend, and 0 means empty |
| `Keyboard.AnyRunFromStart` | src/io.c:11-155 | The same for every interleaving from the boot state |
| `Keyboard.FourStepsGetOldest` | src/io.c:149-155 | Undisturbed, the steps return and drop the oldest byte |
| `Keyboard.Queue.KeyboardHandler` | src/io.c:54-148 | The code of the handler: modifiers, Ctrl+L and the queue end as decoded |
| `Keyboard.Queue.GetInput` | src/io.c:149-155 | 0 iff nothing is unread, else the oldest byte, which is then gone |
| `KeyboardLines.LinesGrow` | src/syscalls.c:83-109 | More keys add lines and change no earlier one |
| `KeyboardLines.ReadsAreAcceptedLines` | src/io.c:54-155 | End to end from boot: whatever the interleaving and the read counts, the bytes read are a prefix of the edited lines of the keys the interrupt handler accepted; when those lines fit, no read overruns the line buffer |
| `KeyboardLines.LineIsAcceptedLine` | src/syscalls.c:83-109 | A line complete for the reader is, byte for byte, the line the handler accepted |
| `Console.KeptIsWithin` | src/io.c:448-451 | fmtGet never holds more than 255 characters, whatever is typed |
| `Console.KeepsAllIff` | src/io.c:448-451 | No keystroke is dropped if and only if the text never outgrows 255 characters |
| `Console.RowSplit` | src/io.c:429-452 | The keys up to a newline are the line, and every key behind it is left |
| `Console.TypedNext` | src/io.c:446-451 | One more key: a character is added unless 255 are there, a backspace takes the last one away |
| `Console.LineStandsOnScreen` | src/io.c:429-456 | After the line its text stands where it began, and the cursor is at the start of the row below |
| `Console.ScreenHoldsTyped` | src/io.c:429-451 | After any keystrokes the cells before the cursor hold exactly the text in the buffer |
| `Console.Editor.EditKey` | src/io.c:439-451 | One keystroke keeps buffer and echo in step, and a full buffer drops characters from both |
| `Console.Editor.EditKeys` | src/io.c:433-452 | The loop leaves the text in the buffer and its echo on the terminal, and consumes just the line |
| `Console.Editor.GetLine` | src/io.c:429-456 | The line ends with newline or Ctrl+D; the buffer holds the text and its NUL, and the mark is cleared |
| `Console.Editor.FmtGetString` | src/io.c:429-463 | The target begins with the text typed and its NUL and is otherwise unchanged |
| `Console.CopyString` | src/io.c:400-406 | The 's' case copies up to the NUL and ends the target with one |
| `Format.PrintedIsOutput` | src/io.c:314-369 | For formats of literals, %d, %c and a final %s the printer prints the concatenated texts |
| `Format.ScannedIsArgs` | src/io.c:387-420 | From that text the scanner stores the original arguments |
| `Format.ScanUndoesPrint` | src/io.c:314-420 | vsfmtGet undoes vsfmtWrite whenever no number is directly followed by a digit |
| `Format.ScansBackIff` | src/io.c:387-420 | For ints other than 0 the scanner stores the original arguments if and only if no number is directly followed by a digit |
| `Format.ScanUndoesPrintIff` | src/io.c:314-420 | vsfmtGet undoes vsfmtWrite on ints other than 0 if and only if the numbers are separated |
| `Format.ScanMismatch` | src/io.c:413-418 | A literal that is not there is passed over in the format alone |
| `Format.ScanText` | src/io.c:400-407 | "%s" takes everything before the NUL |
| `Format.ScanChar` | src/io.c:408-412 | "%c" takes one byte |
| `Format.PercentScansBackIff` | src/io.c:390-413 | A number behind a literal percent sign scans back if and only if it is 0 |
| `Format.AdjacentNumbersIff` | src/io.c:393-397 | Two adjacent ints above the least come back if and only if the second is negative or both are 0 |
| `Format.OneTwoIsLost` | src/io.c:393-397 | A concrete pair that does not come back |
| `Format.AtoiOfPaddedIff` | src/io.c:246-262 | atoi reads a padded number back iff it needed no padding, or is 0, or is positive and zero-padded |
| `Format.ConversionsAreText` | src/io.c:336-360 | The four conversions are "%s", "%d", "%c" and "%x" |
| `Format.PrintedNumber` | src/io.c:320-351 | "%0wd" and "%wd" print the number behind as many zeros or spaces as the width still needs |
| `Format.PrintedHex` | src/io.c:320-360 | "%wx" prints a hexadecimal numeral of that value, of max(digits, min(w, 8)) digits |
| `Format.PrintedText` | src/io.c:336-356 | "%s" and "%c" print their argument whatever the flag and the width |
| `Format.PrintedConstant` | src/io.c:361-364 | "%%" prints one percent sign, an unknown conversion nothing |
| `Format.PaddedScansBackIff` | src/io.c:387-420 | vsfmtGet with a plain "%d" reads a padded number back under exactly that condition |
| `Format.WidthStoresNothing` | src/io.c:389-411 | vsfmtGet stores nothing for a conversion with a pad flag or a width, whatever the text and the conversion |
| `Format.SameFormatScansBackIff` | src/io.c:314-420 | A number printed with flag and width digits scans back with the same format if and only if there are no such digits |
| `Format.EmitPadding` | src/io.c:345-348 | The padding loop writes exactly the missing characters |
| `Format.EmitInt` | src/io.c:342-351 | The padded decimal text is appended; the 32-byte scratch is enough |
| `Format.EmitConversion` | src/io.c:336-364 | Each case of the switch appends the text of its conversion |
| `Format.ReadSpec` | src/io.c:320-334 | Flag, width and conversion character are those of the parsed format |
| `Format.VsfmtWrite` | src/io.c:314-369 | The buffer holds the printed text and a NUL, and nothing is written past it |
| `Format.VsfmtGet` | src/io.c:387-420 | The values stored are those the scanner specification gives, and the text is never read past its NUL |
| `Date.YearStep` | src/ustar.c:30-34 | Each Gregorian year is as long as 365y + y/4 - y/100 + y/400 says |
| `Date.MonthsMakeAYear` | src/ustar.c:43-48 | The twelve months make up the year, so the month loop always breaks before 12 |
| `Date.MonthsClosedForm` | src/ustar.c:39-48 | The days before month m are (367m - 362) / 12, less 0, 1 or 2 as the Gregorian closed form says |
| `Date.KnownDate` | src/ustar.c:18-51 | A concrete date: 12:34:56 on 29 February 2000 is second 951827696 |
| `Date.ToUnixIsInjective` | src/ustar.c:18-51 | No two valid dates stand for the same second |
| `Date.Unix2Date` | src/ustar.c:18-51 | For every number of seconds: both loops end, the date and time are valid, and converting back gives the seconds |
| `Loader.ImageStep` | src/binary.c:31-38 | Loading one more segment overwrites exactly what it covers: later segments win |
| `Loader.DisjointSegments` | src/binary.c:31-38 | Where only one segment covers an address, the order of the headers does not matter |
| `Loader.SegmentIsLoaded` | src/binary.c:34-36 | A segment that no later one overlaps: memory at p_vaddr equals the p_filesz file bytes at p_offset, then zeros up to p_memsz |
| `Loader.UncoveredIsKept` | src/binary.c:31-39 | An address that no PT_LOAD segment covers keeps its byte |
| `ElfLayout.HeaderFields` | include/elf.h:14-29 | On bytes built of the ABI's file header fields in order: type, machine, entry and the header table are read from their fields |
| `ElfLayout.AcceptedIff` | src/binary.c:20-30 | Accepted if and only if the header is whole, has the ELF magic and class 32, and says executable for the 386 |
| `ElfLayout.SegmentFields` | include/elf.h:31-40 | On bytes built of the ABI's program header fields in order: the five fields used are read from their places |
| `Loader.LoadSegment` | src/binary.c:34-36 | The file bytes at p_offset, then zeros, at the segment's addresses; everything else and the file itself unchanged |
| `Loader.LoadNext` | src/binary.c:33-38 | One more segment turns the image of those before it into the image with it |
| `Loader.LoadSegments` | src/binary.c:31-39 | Every address holds the byte of the last PT_LOAD segment covering it, or what it held before |
| `Loader.LoadBinary` | src/binary.c:13-47 | A rejected file leaves memory untouched; an accepted one leaves the whole image, every segment with the last word byte for byte, and the entry address is its header's |
| `Programs.FileInMemory` | src/binary.c:14-20 | Where tarRead points, memory holds the file's contents, and there is room behind for an ELF header to be read |
| `Programs.LoadProgram` | src/binary.c:13-47 | From the name on: a program is entered if and only if the archive holds a file of that name that is accepted, and memory is the image of its contents |
| `Tokenizer.RunsAreMaximal` | src/sh.c:17-33 | The runs are, in order, all the places where a maximal space-free run starts, and nothing else |
| `Tokenizer.CStrIsRun` | src/sh.c:27-28 | After the spaces became NULs, the C string at a position is the rest of the run through it |
| `Tokenizer.Tokenize` | src/sh.c:17-33 | The tokens are the starts of the first min(max, k) runs; the line is cut at every space and unchanged behind its NUL |
| `Tokenizer.TokensAreWords` | src/sh.c:17-33 | The C string at each token is its whole run |

## Left out

- Port I/O, ATA status polling, timeouts and flush commands (src/ata.c:41-123): the disk is a map from sector number to 256 words, and its reads and writes always succeed.
- The hardware cursor (`moveCursor`, `enableCursor`, `disableCursor`) and `advanceCursor` (src/io.c:157-188), which `writeChar` does not use.
- Boot loader, GDT, IDT, TSS, PIC and PIT set-up, the system-call dispatcher and ring switching; `enterUsermode` and the message before it in `loadBinary`: the model ends with the entry address.
- `tarList`, `tarPrintFile` and the shell's commands: they only print.
- The non-blocking mode of `fmtGet` (src/io.c:442-444), which only the shell's own editor turns on: it stores newlines without a bound.
- Fd.Table.Write: requires a descriptor that is not negative, because the source indexes before the table (`close` rejects those, and the model proves it), and no wrap, because a wrapping transfer leaves the buffer (`TransferStaysIff`).
- Fd.Table.ReadFile: requires no wrap, for the same reason.
- Fd.Table.ReadStdin: requires a target with room for the line typed, which the source does not check.
- Console.Editor.FmtGetString: the same room.
- Runs in which `tarLoad`, `tarRm` or `O_TRUNC` happens while files are open: `Truncation` says what one truncation does to a descriptor; runs exclude it.
- Fd.Table.Open: requires room for a file to create, because the archive is not good after that otherwise (`TouchKeepsIff`), and at most one file of a name to truncate, because the tail of `tarEdit` then overwrites the size of the second one in place; other duplicates are covered.
- Fd.Table.FindOrMake: the same two conditions as `Fd.Table.Open`.
- Ustar.Tar.TarTouch: requires a name below 100 bytes, because `strcpy` into the name field does not check.
- Fd.Table.Read: requires that the target has room for what is delivered, which the source does not check, no wrap, and a descriptor that is not negative.
- The least int in `intToStr`: its negation overflows, so it is excluded as an input; ints that `atoi` cannot represent likewise.
- Stdin.Input.ReadStdinLine: requires a line that fits (`LineFits`), because the source overruns the buffer on exactly the others (`StoresFitIff`).
- Stdin.Input.EditKeys: the same.
- Stdin.Input.KReadStdin: the same, for the line it has to edit first.
- Ctrl+L while a line is being edited: the handler would clear the screen under the line; the line-editing model takes keystrokes, not interrupts.
- Waiting: `readStdinLine` polls until a key comes; the model takes the keys the keyboard will deliver as a list, and a read that would wait for ever is outside its contract.
- A source buffer of `write`, or a target of `read`, that overlaps the archive or video memory: sources are values and targets are separate arrays.
- The tar checksum and modification time of a created file: the source fills the checksum with spaces and leaves the time unset, so no full POSIX header conformance is claimed.
- Duplicate names in an archive: invariants over runs are for unique names, which every operation keeps; single operations are specified for duplicates too.
- Ustar.Tar.Put: models `strcpy` and short byte loops alike; the C function's own termination test is not modelled.
- Format.VsfmtWrite: arguments are a typed list that must match the format; mismatched C varargs are not modelled, nor is a format that ends inside a conversion, where the source runs past its end.
- Loader.LoadSegments: the same requirement as `Loader.LoadBinary`.
- Loader.LoadBinary: requires the segments of an accepted file to be in range and apart from the file itself, which the source does not check.
