# Verified models of a CP/M 2.2 system

This project models the parts of the Z80/CP/M emulator and of the CP/M disks shipped with it that keep a
fast or packed structure in step with a simple one, and proves that they do so over every run.

| module | file | what it models |
|---|---|---|
| `Arithmetic` | `Arithmetic.dfy` | powers of two and division, as the other modules need them |
| `BdosBitmap`, `BdosDirectory`, `BdosOwnership`, `BdosRandom`, `BdosPlaces`, `Bdos`, `BdosContents`, `BdosFiles` | `Bdos*.dfy` | the BDOS file system: directory search, allocation, extents, reads and writes, erase, login, random records, whole files |
| `BdosTracks` | `BdosTracks.dfy` | from a logical sector through BDOS, BIOS and disk controller ports to the host's linear sector |
| `Malloc` | `Malloc.dfy` | the Aztec heap: a circular, address-ordered free list with a roving pointer |
| `QuicksortDepth`, `Quicksort`, `QuicksortLimit` | `Quicksort*.dfy` | the Aztec `qsort` with its explicit stack of 16 entries and its 16-bit pointer differences |
| `Deblocking` | `Deblock.dfy` | the one-buffer sector deblocking cache |
| `HostDirectory`, `HostImport`, `HostDisk`, `HostBdos` | `Host*.dfy` | a host directory as a CP/M disk: import, write cache, flush, and what the BDOS makes of it |
| `AsmArithmetic`, `AsmExpression`, `AsmAcceptance`, `AsmEvaluator` | `Asm*.dfy` | the assembler's two-stack expression evaluator and its arithmetic |
| `SymbolTable` | `SymbolTable.dfy` | the assembler's hash-chained symbol table |
| `HexFormat`, `HexWriter`, `ComLoader`, `HexChecksum`, `HexRoundTrip` | `Hex*.dfy`, `ComLoader.dfy` | Intel HEX as the assembler prints it and LOAD reads it |
| `Telnet` | `Telnet.dfy` | the console's TELNET filter (RFC 854, RFC 855) |

Code that works in place is modelled in place: classes whose fields are the named memory cells, arrays for the
buffers, loops for the loops. Bytes and words are integers with explicit wrap-around. Each method is proved
against a specification on values, and what the system promises is proved of that specification.

Main results:

- Over every run of make, open, sequential and random reads and writes, close, erase and disk reset, no block comes to
  two files, every block named by the directory or an open control block is marked in use, and every live entry lies
  below the high-water mark (`Bdos.Drive.Run`). A write reaches no sector outside its own file
  (`Bdos.Drive.WtSeq1`), and an extent that is left is in the directory with all its blocks
  (`Bdos.Drive.GetNext`). A record written is read back after every run of calls that neither use its control block
  nor write to its file (`Bdos.Drive.WriteThenRead`).
- A file made, written in sequence over any number of extents and closed has the size of what was written, every
  record reads back as it was written, and the record after the last is refused; writing stops only when the disk or
  the directory is full or the file has 65536 records (`BdosFiles.WriteAndRead`). A record written and closed through
  one control block is read by whoever opens the file (`BdosFiles.WriteCloseRead`).
- A directory search that stops at the mark finds exactly what a full scan finds (`Bdos.Drive.Enumerate`).
- Over every run of malloc and free, the free list is one ordered circle, all blocks are disjoint, and the units
  obtained from sbrk are conserved; sbrk is asked only when every run of adjacent free blocks is too small
  (`Malloc.Heap.Run`, `Malloc.Heap.Malloc`).
- `qsort` sorts, permutes and terminates on every area in memory whose depth is at most its sixteen stack entries
  (`Quicksort.Qsort`). The depth is the most entries that any input needs (`Quicksort.DepthSuffices`,
  `QuicksortLimit.DepthReached`), so sixteen entries suffice for every input, even of values that fit a byte, if and
  only if it is at most sixteen (`QuicksortLimit.SixteenExact`): always up to `(nel - 3) * size <= 32767`, never from
  `(nel - 35) * size >= 32768` on, and for elements of two bytes up to 16392 of them (`QuicksortLimit.WordsExact`).
- The deblocking cache is a flat array of sectors over every run (`Deblocking.Deblocker.Serve`).
- Host files come in exactly when directory and disk have room for all of them (`HostDisk.Disk.ImportAll`), every
  byte of an imported file is read back as the host has it, a last part of a record included
  (`HostDisk.Disk.ReadImported`), and Flush changes
  no sector that is cached or backed by 128 bytes of a host file, and no byte of a host file but those of the
  sectors written (`HostDisk.Disk.Flush`, `HostDisk.Disk.Run`).
- A record of an imported file, read by the BDOS through search, record count, BIOS, ports and host, comes from the
  sector that stands for it if and only if the extent mask is 0, or the record is one of the first 128 and below the
  count that `addfile` stored in the first entry; else it is refused or another record of the file is read
  (`HostBdos.ReadRecord`).
- For every expression of the grammar the evaluator yields the value of the parse tree, or reports an error and
  yields zero, exactly when the expression is too deep for its stacks or a shift count is above 16
  (`AsmEvaluator.Evaluator.ScanExpression`). The texts of expressions that have a value are exactly the accepted
  fields in which no unary operator follows an operand and each one binds more tightly than the operator before it
  (`AsmAcceptance.AcceptedTexts`); a count of operands says which other fields are accepted
  (`AsmAcceptance.AcceptsExact`).
- Every run of definitions makes the symbol table the map it should be, and gets through exactly when the new
  identifiers fit (`SymbolTable.Table.DefineAll`).
- Assembling and loading is the identity on memory images if and only if they end by 0FF00H
  (`HexRoundTrip.AssembleAndLoad`). LOAD reads a text to its end if and only if every record has its digits and a sum of
  zero and no byte falls behind the window (`HexChecksum.ReadRecordsExact`); a printed text with one byte damaged is
  refused (`HexRoundTrip.LoadDamaged`).
- The program at the console gets the text that a terminal sends, one CR for each end of a line in any of its forms,
  and nothing of the commands in between (`Telnet.SessionTyped`).

What the code does where its own comments say otherwise:

- GETBLOCK (cpm22/bdos.asm:666-684) says that it shifts the extent by 8 - BLKSHFT places; it shifts by
  7 - BLKSHFT, which is what the table needs.
- A close whose block tables clash (cpm22/bdos.asm:1640-1642) counts the status down by one. The search has left
  the entry's place within its sector there, so the status is 0FFH only for the first entry of a sector
  (`Bdos.Drive.ClashReported`); such a clash can come at every place of a directory
  (`BdosOwnership.ClashAnywhere`).
- `qsort` compares pointer differences as signed ints (disks/I/2/QSORT.C:36), so in areas above 32767 bytes it can
  stack the smaller part (`QuicksortLimit.ChoiceExact`), and sixteen entries do not suffice
  (`QuicksortLimit.StackOverruns`).
- LOAD pads the last paragraph by storing zeros up to 128 bytes beyond it (disks/J/LOAD.PLM:315-320). An image that
  ends above 0FF00H makes the load address wrap, which LOAD reports as an inverted address; an image with a byte at
  0FFFFH is not padded at all and loses its last 256 bytes without a message (`HexFormat.LoadPrinted`).
- The BIOS hands only the low byte of a track to the controller (cpm22/bios.asm:306-308), so the host meets the
  right sector exactly for tracks below 256 (`BdosTracks.SeekOnHost`).
- `addfile` splits an extent number at four bits and `GetExtNumber` joins it at eight, so they agree on the first
  sixteen extents of a file only (`HostDirectory.SplitAgrees`, `HostImport.ExtentInPlace`); a sector of a later
  extent stands for another record of the host file (`HostImport.RecordInPlace`).
- `addfile` numbers entries by one, the BDOS by the extents an entry holds, so on disks whose extent mask is not 0
  the BDOS looks for most entries of a file under other numbers (`HostBdos.AcceptsExact`). `addfile` also stores the
  count of all records of an entry in a byte, where the BDOS expects those of its last extent: with such a mask no
  record of a file that fills an entry is read (`HostBdos.FullEntryRefused`). And on a disk of 256 blocks above 1024
  bytes the host writes words where the BDOS reads bytes (`HostBdos.WidthsAgree`). None of this is so for the two
  disks of the BIOS (`HostBdos.ShippedDisks`).
- OPER1 (disks/J/AS5OPER.ASM:462-467) takes every operator after an operand for a binary one, NOT included. So
  `5 NOT` is taken for `NOT 5` (`AsmAcceptance.TrailingNot`) and `5 NOT 6 AND` for `5 AND NOT 6`
  (`AsmAcceptance.NotInTheMiddle`); and a sign after an operator that binds as tightly applies that operator to the
  operands before it, so `1 AND 2 * -3` is taken for `(1 * 2) AND -3` (`AsmAcceptance.SignAfterProduct`).

## Model

| member | source | states |
|---|---|---|
| `BdosBitmap.BitOfWithBit` | cpm22/bdos.asm:1131-1146 | storing one bit of the allocation map changes no other |
| `BdosBitmap.CkBitmap` | cpm22/bdos.asm:1087-1125 | after the rotations bit 0 is the bit of the block asked for |
| `BdosBitmap.StBmap1` | cpm22/bdos.asm:1142-1146 | rotating back restores the byte and stores it at its place |
| `BdosBitmap.StBitmap` | cpm22/bdos.asm:1131-1146 | exactly the bit of the block takes the value |
| `BdosBitmap.FndSpace` | cpm22/bdos.asm:1387-1451 | a free block at least distance from the target, the lower on ties, exactly its bit set; 0 only if no block but the target is free |
| `BdosBitmap.OneBitChanges` | cpm22/bdos.asm:1437-1442 | the block handed out is not 0 and its bit is the only one that changes |
| `BdosDirectory.MatchesBeforeExact` | cpm22/bdos.asm:1280-1355 | a scan gives exactly the matching places, each once, in order |
| `BdosDirectory.MarkLosesNothing` | cpm22/bdos.asm:1296-1305 | no match lies at or above the mark, for every first byte that no empty entry can match |
| `BdosDirectory.UserNumberDiscerns` | cpm22/bdos.asm:1296-1305 | user numbers are such first bytes, and none of them is the empty mark |
| `BdosDirectory.MarkCanLose` | cpm22/bdos.asm:1296-1305 | for every other first byte a match above the mark is missed |
| `Bdos.Drive.Compare` | cpm22/bdos.asm:1306-1339 | the byte loop accepts exactly the matching entries: wild cards, byte 13 ignored, extents by SAMEXT |
| `Bdos.Drive.FindNxt` | cpm22/bdos.asm:1293-1355 | the next match below the limit, its place in its sector as status, or 0FFFFH and 0FFH |
| `Bdos.Drive.FindFst` | cpm22/bdos.asm:1280-1293 | the first match below the limit, for every length of match and every first byte |
| `Bdos.Drive.FindWhole` | cpm22/bdos.asm:1280-1305 | with the mark in order, that is the first match of the whole directory |
| `Bdos.Drive.ScanNext` | cpm22/bdos.asm:1293-1355 | search next goes on exactly where the full scan goes on |
| `Bdos.Drive.Enumerate` | cpm22/bdos.asm:1280-1355 | search first and search next enumerate the full scan in order although both stop at the mark |
| `Bdos.Drive.ChkNmbr` | cpm22/bdos.asm:946-952 | the mark ends above the current place and never falls |
| `Bdos.Drive.StrData` | cpm22/bdos.asm:765-774 | record, record count and masked extent of the control block |
| `Bdos.Drive.GetBlk1` | cpm22/bdos.asm:666-672 | halving BLKSHFT times divides by the sectors of a block |
| `Bdos.Drive.GetBlk2` | cpm22/bdos.asm:674-682 | doubling 7 - BLKSHFT times never overflows the byte |
| `Bdos.Drive.GetBlock` | cpm22/bdos.asm:666-684 | the place in the block table, inside the table for every record of the entry |
| `BdosOwnership.BlockIndexFits` | cpm22/bdos.asm:666-684 | every record of every extent of an entry has a place in the table |
| `Bdos.Drive.Logical` | cpm22/bdos.asm:730-743 | block times sectors plus record within the block, and the block is found back by division |
| `Bdos.Drive.Allocate` | cpm22/bdos.asm:1777-1811 | an unowned block nearest to the one before it goes to the file; status 2 and no change if and only if every block of the disk is in use |
| `BdosOwnership.TargetInUse` | cpm22/bdos.asm:1387-1451 | when no block but the target is free, the target is in use too: the disk is full |
| `Bdos.Drive.BlockToWrite` | cpm22/bdos.asm:1773-1811 | the table's block, or a block that nobody owned put into the table; 0 only if every block is in use |
| `Bdos.Drive.WriteRecord` | cpm22/bdos.asm:1763-1888 | one sector written, in a block of the file, and what the write makes of the control block; otherwise nothing changed, with status 1 for a record beyond 127 and status 2 only if every block is in use |
| `Bdos.Drive.SetNrec` | cpm22/bdos.asm:781-793 | next record and record count in the control block |
| `Bdos.Drive.NextIfFull` | cpm22/bdos.asm:1889-1903 | after record 127 record 0 of the next extent with the block table of its entry, the full one saved; record 128 only if it is not listed, the directory is full or it was the last |
| `Bdos.Drive.WtSeq1` | cpm22/bdos.asm:1763-1903 | a write changes only its file: its control block, its entries, sectors of its blocks; the sector is that of the record, the control block after it is given in full, and a refusal has its cause |
| `BdosOwnership.FilledAgree` | cpm22/bdos.asm:1591-1622 | without a clash both block tables end the same |
| `BdosOwnership.FilledHolds` | cpm22/bdos.asm:1591-1622 | completing a table from another of the same file names no foreign block |
| `Bdos.Drive.MergeTables` | cpm22/bdos.asm:1591-1622 | both tables completed from each other up to the first clash, which is reported |
| `Bdos.Drive.CloseFound` | cpm22/bdos.asm:1584-1642 | the merged table in entry and control block, the later extent's count; on a clash the entry is kept and the status counted down |
| `Bdos.Drive.ClashReported` | cpm22/bdos.asm:1640-1642 | after a clash the entry is kept, and the status is 0FFH if and only if the entry comes first in its sector |
| `BdosOwnership.ClashAnywhere` | cpm22/bdos.asm:1584-1642 | for every place of a directory there is a sound system in which closing clashes there |
| `Bdos.Drive.CloseIt` | cpm22/bdos.asm:1571-1642 | nothing for an unmodified block, 0FFH for a missing entry, else the merge of CloseFound |
| `Bdos.Drive.OpenIt1` | cpm22/bdos.asm:1515-1547 | the entry copied, extent kept, marked unmodified, record count by the order of the extents |
| `Bdos.Drive.OpenListed` | cpm22/bdos.asm:1511-1547 | the first entry listed for the extent is opened, or none is listed |
| `Bdos.Drive.FindEmpty` | cpm22/bdos.asm:1647-1657 | the first empty place, never an entry in use; none only in a full directory |
| `Bdos.Drive.GetEmpty` | cpm22/bdos.asm:1647-1672 | a cleared entry in the first empty place, the mark raised over it; full directory otherwise |
| `Bdos.Drive.MakeExtent` | cpm22/bdos.asm:1647-1672 | a new entry for the extent, then the first listed for it; refused only by a full directory |
| `Bdos.Drive.OpenOrMake` | cpm22/bdos.asm:1706-1717 | the control block holds the first entry listed for the extent, or a new empty one; entries in use kept; failure only if not listed and reading or full |
| `Bdos.Drive.EnterExtent` | cpm22/bdos.asm:1696-1717 | the next extent in the entry just closed or in the first listed for it; failure only if it is not listed and none can be made, or after the last extent |
| `Bdos.Drive.GetNext` | cpm22/bdos.asm:1677-1726 | the control block holds the entry of the next extent and module, the old one is saved in the directory; status 1 only if the next is not listed and none can be made, or after the last; status 0FFH if this one is not listed |
| `Bdos.Drive.Fail` | cpm22/bdos.asm:2010-2020 | the error code, s2 marked |
| `Bdos.Drive.ChangeExtent` | cpm22/bdos.asm:1972-2006 | the control block holds the entry of the extent and module asked for, after closing this one; status 4 or 5 only if it is not listed and none can be made, status 3 only if the close fails |
| `Bdos.Drive.SeekRandom` | cpm22/bdos.asm:1921-2020 | on success the control block stands at the record asked for with the block table of its entry; error 6 exactly for an overflow byte, 4 and 5 only if the extent is not listed and none can be made, 3 only if the close fails |
| `Bdos.Drive.AtRecordCombines` | cpm22/bdos.asm:2130-2140 | from there SETRAN gives back the number asked for |
| `Bdos.Drive.WriteRan` | cpm22/bdos.asm:2031-2034 | a random write changes only its file, and writes the sector of the record asked for; each status with its cause |
| `Bdos.Drive.ReadBlock` | cpm22/bdos.asm:1747-1751 | the sector of the record in the block of the table; refused exactly if the table has no block there |
| `Bdos.Drive.RdSeq1` | cpm22/bdos.asm:1732-1760 | a record below the count comes from its sector; others are refused with nothing changed, but for record 128, which is record 0 of the next extent, or why there is none |
| `Bdos.Drive.ReadRan` | cpm22/bdos.asm:2024-2027 | a random read gives the sector of the record asked for; each status with its cause; a block without changes leaves the directory alone |
| `Bdos.Drive.OpenAndRead` | cpm22/bdos.asm:1511-2027 | opened and read at random, a record comes from the first entry listed for its extent, if and only if it is below the count which that has for the extent and has a block |
| `Bdos.Drive.NextGoesOn` | cpm22/bdos.asm:1684-1702 | the next extent begins with the record after the last of this one |
| `BdosPlaces.PlaceAgrees` | cpm22/bdos.asm:666-684 | GETBLOCK finds the block of a record at its place in the entry, counted over all blocks of the file |
| `BdosPlaces.PlaceUnique` | cpm22/bdos.asm:666-743 | entry, place and sector tell the record |
| `BdosPlaces.SameEntry` | cpm22/bdos.asm:1261-1275 | SAMEXT and the module byte agree exactly if the two extents are in one entry |
| `BdosContents.WriteContents` | cpm22/bdos.asm:1763-1888 | a record written in its own block or a new one keeps all records before it |
| `BdosContents.ListedAt` | cpm22/bdos.asm:1280-1355 | the first entry listed for an extent is that of its group, and none is listed for a group the file has not |
| `BdosContents.WriteStep` | cpm22/bdos.asm:1763-1903 | a record more in the control block, with the tables of the whole file |
| `BdosContents.CloseStep` | cpm22/bdos.asm:1584-1642 | after a close the directory has every record: full entries and a last one that ends with the file |
| `BdosContents.NextStep` | cpm22/bdos.asm:1677-1726 | a full extent is closed, and the next begins empty after it, in its entry or in a new one |
| `BdosContents.ReadStep` | cpm22/bdos.asm:1732-1760 | a random read finds the record that was written, and refuses those the file has not |
| `BdosContents.SizeIs` | cpm22/bdos.asm:2089-2125 | the largest number over the entries is the number of records |
| `BdosFiles.CloseAndRead` | cpm22/bdos.asm:1571-2027 | a close goes through if and only if the extent is listed without a clash; then another control block that opens the file reads the record from its sector |
| `BdosFiles.WriteCloseRead` | cpm22/bdos.asm:1571-2034 | a record written at random and closed is read by another control block; each refusal has its cause |
| `BdosFiles.AppendCloseRead` | cpm22/bdos.asm:1571-2027 | so is one written in sequence |
| `BdosFiles.Create` | cpm22/bdos.asm:1647-1672 | a new file without records; refused only by a full directory |
| `BdosFiles.WriteNext` | cpm22/bdos.asm:1763-1903 | a sequential write adds its record to the file and keeps the others; refused only if the disk or the directory is full or the file has 65536 records |
| `BdosFiles.StoreFile` | cpm22/bdos.asm:1571-1903 | after make, writes and close the directory and the disk have exactly the records written |
| `BdosFiles.SizeOfFile` | cpm22/bdos.asm:2089-2125 | RANSIZE gives the number of records |
| `BdosFiles.ReadOne` | cpm22/bdos.asm:1511-2027 | record r as it was written, refused from the end of the file on |
| `BdosFiles.WriteAndRead` | cpm22/bdos.asm:1511-2125 | make, n writes, close: the size is n, all records read back in order, record n is refused |
| `Bdos.Drive.AsksByFile` | cpm22/bdos.asm:1306-1339 | attribute bits in a control block's name do not change what it matches |
| `Bdos.Drive.Perform` | cpm22/bdos.asm:1360-2034 | a call leaves every control block that it does not use, and the sectors of its blocks unless it writes to that file |
| `Bdos.Drive.WriteThenRead` | cpm22/bdos.asm:1921-2034 | a record written at random is read back after every run of calls on other control blocks that do not write to its file |
| `Bdos.Drive.AppendThenRead` | cpm22/bdos.asm:1730-1903 | so is one written in sequence |
| `BdosRandom.Comprand` | cpm22/bdos.asm:2044-2078 | the byte sums and their carries come to Combined |
| `BdosRandom.CombinedExact` | cpm22/bdos.asm:2044-2078 | Combined is record + 128 extent + 4096 s2 exactly for extents below 32 and numbers below 131072 |
| `BdosRandom.SplitThenCombine` | cpm22/bdos.asm:1926-1953 | splitting a 16-bit record number and combining it again is the identity |
| `Bdos.Drive.Larger` | cpm22/bdos.asm:2102-2121 | the three bytes become the larger of two numbers |
| `Bdos.Drive.RanSize` | cpm22/bdos.asm:2089-2125 | the largest number over all entries of the file, and it is reached |
| `Bdos.Drive.SetRan` | cpm22/bdos.asm:2130-2140 | the record number of the control block |
| `Bdos.Drive.SetFile` | cpm22/bdos.asm:1151-1186 | the bits of exactly the table's blocks within the disk |
| `BdosOwnership.WantedByFile` | cpm22/bdos.asm:1360-1372 | a pattern takes all entries of a file or none |
| `BdosOwnership.SurvivorsHold` | cpm22/bdos.asm:1360-1372 | files not erased keep all their blocks, and so do open control blocks that name no freed one |
| `Bdos.Drive.EraFile` | cpm22/bdos.asm:1360-1372 | every matching entry emptied, exactly their blocks freed; the system stays sound and safe if and only if no open control block names one of these |
| `BdosOwnership.FreedUnderOpen` | cpm22/bdos.asm:1360-1372 | an open control block that names a block freed by an erase breaks the safety of the system |
| `BdosOwnership.EraseSafe` | cpm22/bdos.asm:1360-1372 | after an erase the system is safe, and sound, if and only if no open control block names a freed block |
| `BdosOwnership.UnwantedClear` | cpm22/bdos.asm:1360-1372 | control blocks of files that are not erased name none |
| `Bdos.Drive.ClearMap` | cpm22/bdos.asm:1193-1221 | the map holds the reserved blocks alone |
| `Bdos.Drive.MarkEntries` | cpm22/bdos.asm:1225-1249 | the blocks of all live entries set, the mark just above the last |
| `Bdos.Drive.BitMap` | cpm22/bdos.asm:1193-1249 | map, mark and owners agree with the directory |
| `Bdos.Drive.constructor` | cpm22/bdos.asm:1193-1249 | a drive logged in from a directory without cross links is sound |
| `Bdos.Drive.Make` | cpm22/bdos.asm:1647-1672 | a new file in the first empty entry; refused only by a full directory |
| `Bdos.Drive.Open` | cpm22/bdos.asm:1511-1547 | the first matching extent, wild cards allowed |
| `BdosOwnership.GrantKeepsSound` | cpm22/bdos.asm:1786-1811 | giving a free block to a file keeps the system sound |
| `BdosOwnership.BuiltMap` | cpm22/bdos.asm:1193-1249 | a map built from the directory is that of the owners |
| `BdosOwnership.SoundIsSafe` | cpm22/bdos.asm:1571-1903 | in a sound system a named block is in range, marked, and of one file |
| `Bdos.Drive.Run` | cpm22/bdos.asm:1360-2034 | every run of calls keeps the system sound and safe |
| `BdosTracks.TrackCache.StepBack` | cpm22/bdos.asm:596-611 | back by whole tracks to at or before the sector |
| `BdosTracks.TrackCache.StepOn` | cpm22/bdos.asm:612-624 | on by whole tracks to the sector's track, also when the sum leaves 16 bits |
| `BdosTracks.TrackCache.Trksec1` | cpm22/bdos.asm:583-661 | exact quotient and remainder by the sectors of a track from any cached track |
| `BdosTracks.TrackCache.Trksec` | cpm22/bdos.asm:574-579 | the sector of a directory entry |
| `BdosTracks.InverseMap` | src/biosapi.cpp:314-315 | the host's table inverts every skew table |
| `BdosTracks.SeekPorts` | cpm22/bios.asm:306-323 | the ports get the low byte of the track and the skewed sector |
| `BdosTracks.HostMeets` | src/biosapi.h:566-571 | from these the host computes the sector number again if and only if the track fits its byte |
| `BdosTracks.SeekOnHost` | src/biosapi.h:566-571 | the host's linear sector is the BDOS's logical one if and only if the track fits its byte port, and else a lower one |
| `Malloc.UnitsHold` | disks/I/2/MALLOC.C:36 | the unit count holds the request if and only if size is at most 65532, and no smaller one does |
| `Malloc.Heap.Sbrk` | disks/I/2/SBRK.ASM:9-37 | the break moves up or -1 |
| `Malloc.Heap.FindPlace` | disks/I/2/MALLOC.C:81-83 | the walk ends at the block that precedes the hole in address order |
| `Malloc.Heap.Free` | disks/I/2/MALLOC.C:73-89 | the block linked in at its place; -1 and no change for a block that is free |
| `Malloc.Heap.Absorb` | disks/I/2/MALLOC.C:41-46 | one coalescing keeps list, runs and the walked part, also when it moves the roving pointer |
| `Malloc.Heap.Coalesce` | disks/I/2/MALLOC.C:41-46 | nothing adjacent is left after the block |
| `Malloc.Heap.Take` | disks/I/2/MALLOC.C:48-61 | exactly the units asked for leave the list |
| `Malloc.Heap.Grow` | disks/I/2/MALLOC.C:62-69 | called only when no run of free blocks is long enough |
| `Malloc.Heap.Start` | disks/I/2/MALLOC.C:37-38 | the first call makes the head a list of its own |
| `Malloc.Heap.Onward` | disks/I/2/MALLOC.C:62-70 | nearer to the roving pointer, or the heap has grown, or memory is out |
| `Malloc.Heap.Visit` | disks/I/2/MALLOC.C:40-70 | each round lowers the measure of sbrk memory, nodes and distance |
| `Malloc.Heap.Malloc` | disks/I/2/MALLOC.C:28-71 | a block of the right size, no live block touched; no sbrk if some run fits; NULL only if none fits and memory is out; the break moves by the units obtained |
| `Malloc.Heap.Store` | disks/I/2/MALLOC.C:28-71 | writing inside a held area cannot break the heap |
| `Malloc.Heap.Run` | disks/I/2/MALLOC.C:28-89 | every run keeps one ordered circle, disjoint blocks and the units obtained; the break moves by those units and by what the program takes for itself |
| `Malloc.MergeKeepsHasRun` | disks/I/2/MALLOC.C:41-46 | coalescing loses no run of adjacent free blocks |
| `Malloc.WalkedRound` | disks/I/2/MALLOC.C:62-63 | back at the roving pointer every run is too small |
| `Malloc.MergeStep` | disks/I/2/MALLOC.C:41-46 | merging keeps order, circle, disjointness, units and the roving pointer's place |
| `Malloc.CarveStep` | disks/I/2/MALLOC.C:51-59 | cutting a block keeps order, circle, disjointness and units |
| `Malloc.FreeStep` | disks/I/2/MALLOC.C:85-86 | linking keeps order, circle, disjointness and units |
| `Malloc.GrowStep` | disks/I/2/MALLOC.C:63-66 | memory from sbrk is a live block of its own |
| `Quicksort.ScanUp` | disks/I/2/QSORT.C:20-21 | the unguarded scan stops inside the partition |
| `Quicksort.ScanDown` | disks/I/2/QSORT.C:22-23 | the unguarded scan stops inside the partition |
| `Quicksort.SwapStep` | disks/I/2/QSORT.C:24-30 | after a swap the pivot pointer still addresses the pivot |
| `Quicksort.PassRound` | disks/I/2/QSORT.C:19-35 | one round keeps the pivot, the order around it and the elements |
| `Quicksort.ScansStop` | disks/I/2/QSORT.C:20-23 | both scans stop inside the partition, on every input |
| `Quicksort.RoundsSplit` | disks/I/2/QSORT.C:19-35 | the rounds of a pass split the partition in order and permute only inside it |
| `Quicksort.PartitionPass` | disks/I/2/QSORT.C:15-35 | the partition split in order around the pivot, permuting only inside: the pass WholePass, in every area in memory |
| `Quicksort.MiddleExact` | disks/I/2/QSORT.C:16 | the middle computed from an unsigned 16-bit difference is the middle element, in every area in memory |
| `QuicksortDepth.ChoiceIs` | disks/I/2/QSORT.C:36 | the signed comparison finds the larger part unless a difference is negative; that part then comes next |
| `QuicksortDepth.ChoiceRight` | disks/I/2/QSORT.C:36 | in an area with (nel - 3) * size <= 32767 it never stacks the smaller part |
| `QuicksortLimit.ChoiceExact` | disks/I/2/QSORT.C:15-36 | the pass over every input of an area stacks the larger part if and only if (nel - 3) * size <= 32767, and so over every input of bytes |
| `QuicksortLimit.ChoiceWrong` | disks/I/2/QSORT.C:15-36 | in any larger area there is an input, of four values, whose last two elements are stacked |
| `Quicksort.StackPart` | disks/I/2/QSORT.C:36-50 | the part that the comparison chooses is stacked if it has two elements, and the other comes next |
| `QuicksortDepth.ChoiceDepth` | disks/I/2/QSORT.C:36-50 | whatever the split, both parts stay within the depth of the whole, the one that comes next with an entry to spare |
| `Quicksort.PassPending` | disks/I/2/QSORT.C:15-50 | a pass keeps everything outside the pending partitions in order, the elements and the depth, and lowers the work |
| `Quicksort.DivideStep` | disks/I/2/QSORT.C:15-50 | a pass and the choice after it are one step of the run, if the stack has room for the depth |
| `Quicksort.DivideAll` | disks/I/2/QSORT.C:15-51 | passes until the current partition has fewer than two elements, each a step of the run, the work falling |
| `Quicksort.PopPending` | disks/I/2/QSORT.C:52-56 | so does taking the next partition from the stack |
| `Quicksort.DepthSuffices` | disks/I/2/QSORT.C:12-58 | on every input, after every step of every run, the stack has no more entries than the depth |
| `QuicksortDepth.DepthIsLog` | disks/I/2/QSORT.C:36-50 | below the first negative difference the depth is at most k if and only if there are fewer than 3 * 2^k elements |
| `QuicksortDepth.DepthAbove` | disks/I/2/QSORT.C:36-50 | above it every two elements more cost an entry |
| `QuicksortDepth.DepthLimit` | disks/I/2/QSORT.C:7-10 | the number of elements up to which sixteen entries suffice, in closed form |
| `QuicksortDepth.SafeDepth` | disks/I/2/QSORT.C:7-10 | areas with (nel - 3) * size <= 32767 need at most fifteen entries |
| `Quicksort.SortWith` | disks/I/2/QSORT.C:12-58 | with a stack of any length that the depth allows the code makes a run of the steps to its end: a sorted permutation |
| `Quicksort.OrderedAfterSplit` | disks/I/2/QSORT.C:36-50 | after a split every pair in different partitions is in order |
| `Quicksort.Qsort` | disks/I/2/QSORT.C:12-58 | a sorted permutation within the 16 entries, for every total preorder and every area whose depth is at most 16 |
| `QuicksortLimit.SplitsAt` | disks/I/2/QSORT.C:15-35 | a pivot above all up to a place and below all after it is put there, and the pass splits before it |
| `QuicksortLimit.DepthReached` | disks/I/2/QSORT.C:12-58 | in every area some input has a run that reaches any depth k up to that of the area, with no more than 2k + 2 values |
| `QuicksortLimit.SixteenExact` | disks/I/2/QSORT.C:7-58 | sixteen entries suffice for every run on every input of an area, and on every input of bytes, if and only if its depth is at most sixteen |
| `QuicksortLimit.WordsExact` | disks/I/2/QSORT.C:7-58 | for elements of two bytes, if and only if there are at most 16392 of them |
| `QuicksortLimit.StackOverruns` | disks/I/2/QSORT.C:7-50 | for every area with (nel - 35) * size >= 32768 there is an input of bytes and a run on it with a seventeenth entry |
| `Deblocking.AlignedWindow` | disks/J/DEBLOCK.ASM:127-145 | the records of an unallocated write are its block if and only if it starts the block |
| `Deblocking.SlicesInOrder` | disks/J/DEBLOCK.ASM:256-275 | the four sectors of a host sector lie in it in their order |
| `Deblocking.Deblocker.Wboot` | disks/J/DEBLOCK.ASM:57-63 | only a pending host sector is lost |
| `Deblocking.Deblocker.ChkUna` | disks/J/DEBLOCK.ASM:146-199 | a pre-read is skipped only if the host sector holds nothing of value |
| `Deblocking.NextRecord` | disks/J/DEBLOCK.ASM:168-188 | the next record of the run is the next linear sector, over track ends, and what is left of the run still holds nothing of value |
| `Deblocking.Deblocker.Position` | disks/J/DEBLOCK.ASM:201-255 | the buffer holds the sector's host sector, what was in it is on the disk |
| `Deblocking.Deblocker.Read` | disks/J/DEBLOCK.ASM:110-120 | the bytes last written to the sector |
| `Deblocking.Deblocker.StoreRecord` | disks/J/DEBLOCK.ASM:256-302 | the flat array changes at one sector; a directory write reaches the disk |
| `Deblocking.Deblocker.BeginWrite` | disks/J/DEBLOCK.ASM:127-199 | whether a pre-read is needed, with the contents it may skip |
| `Deblocking.Deblocker.Write` | disks/J/DEBLOCK.ASM:127-302 | the flat array changes at the sector; after a directory write the disk equals it |
| `Deblocking.FlushRefines` | disks/J/DEBLOCK.ASM:236-241 | writing the buffer out puts the flat array on the disk |
| `Deblocking.FillRefines` | disks/J/DEBLOCK.ASM:242-255 | a buffer read, or not worth reading, keeps the flat array |
| `Deblocking.StoreRefines` | disks/J/DEBLOCK.ASM:256-302 | a record in the buffer is a sector of the flat array |
| `Deblocking.Deblocker.Serve` | disks/J/DEBLOCK.ASM:57-302 | every run of requests is a run of the flat array, every read answered from it |
| `HostDirectory.SplitAgrees` | src/biosapi.h:336 | the extent number comes back from its two parts if and only if it is below 16 |
| `HostDirectory.ShapeOfOk` | src/biosapi.h:150-160 | block pointers are wide enough for every disk that CP/M allows |
| `HostDirectory.DirectoryBlocks` | src/biosapi.cpp:325-330 | the number of blocks up to the last one reserved |
| `HostDirectory.PlaceUnique` | src/biosapi.cpp:360-373 | no two data sectors stand for the same record of the same host file |
| `HostDirectory.Patched` | src/biosapi.cpp:383-411 | 128 bytes written, the rest kept |
| `HostDirectory.Overlaid` | src/biosapi.cpp:413-440 | byte for byte the file's, the buffer's own beyond its end |
| `HostDisk.Disk.FindBlockIndex` | src/biosapi.cpp:740-760 | one more than the block's number in its file, or 0 |
| `HostDisk.FlushOneInvisible` | src/biosapi.cpp:352-376 | one sector moved to its host file changes no sector's content |
| `HostDisk.Disk.FlushSector` | src/biosapi.cpp:359-376 | the sector goes to its one owner's file and leaves the cache; without an owner it stays |
| `HostDisk.HostTurn` | src/biosapi.cpp:359-376 | one turn changes the host files in the bytes of its sector alone |
| `HostDisk.Disk.Flush` | src/biosapi.cpp:346-381 | nothing that is cached or backed changes; only sectors without an owner stay cached; every host byte is that of the sector written to it or as it was, and no file is longer than the last sector asks for |
| `HostDisk.Disk.WriteSector` | src/biosapi.cpp:543-552 | the sector holds the data, all others what they held |
| `HostDisk.Disk.ReadSector` | src/biosapi.cpp:591-628 | the cached bytes, those of the host file with the buffer's own beyond its end, or the buffer unchanged |
| `HostDisk.Disk.Run` | src/biosapi.cpp:346-628 | over every run of writes and flushes a sector holds what was last written to it |
| `HostImport.BlocksLeast` | src/biosapi.cpp:81 | the blocks hold the file, and one fewer does not |
| `HostImport.ExtentsExact` | src/biosapi.cpp:82 | all entries but the last are full, and the last is not |
| `HostImport.CountExact` | src/biosapi.cpp:106-108 | where an entry is one extent, its count ends with the extent or with the last block of the file |
| `HostImport.ExtentInPlace` | src/biosapi.cpp:98-99 | an extent's number in the directory is its number in the file if and only if that is below 16 |
| `HostImport.RecordInPlace` | src/biosapi.cpp:740-760 | a sector of an imported file stands for its own record if and only if it is in the first sixteen extents |
| `HostImport.UnusedLess` | src/biosapi.cpp:134-148 | using an entry leaves one unused entry fewer |
| `HostImport.AddedInOrder` | src/biosapi.cpp:84-127 | the entries of a file stand in the directory in the order of their numbers |
| `HostImport.AddedKeeps` | src/biosapi.cpp:84-127 | a new file keeps pointers distinct and every file complete |
| `HostImport.AddedCounted` | src/biosapi.cpp:106-108 | every entry has the count of its own records, cut to a byte |
| `HostDisk.Disk.constructor` | src/biosapi.cpp:300-338 | an empty disk: its data begin after the last block reserved, and its sector map inverts the skew table |
| `HostDisk.Disk.NewDir` | src/biosapi.cpp:134-148 | the first unused entry, or none is left |
| `HostDisk.Disk.TakeBlocks` | src/biosapi.cpp:112-125 | consecutive free blocks that fit their pointer width, or the disk is full |
| `HostDisk.Disk.AddExtent` | src/biosapi.cpp:86-127 | one extent of the file in an unused entry; refused if and only if there is no such entry or too few blocks |
| `HostDisk.Disk.AddExtents` | src/biosapi.cpp:84-127 | all extents of the file, or not enough unused entries or free blocks |
| `HostDisk.Disk.AddFile` | src/biosapi.cpp:53-131 | all blocks of the file imported; a taken name passed over; refused if and only if unused entries or free blocks are too few |
| `HostImport.NamedMore` | src/biosapi.cpp:65-72 | one more file is passed over or gets its name, which no other has |
| `HostDisk.Disk.ImportAll` | src/biosapi.cpp:152-272 | every listed name imported once, the first file of a name wins, the disk valid, if and only if directory and disk have room for all files that are first of their name |
| `HostDisk.RecordPresent` | src/biosapi.cpp:81-127 | every record of an imported file, a last part of one included, has a block |
| `HostDisk.RecordFound` | src/biosapi.cpp:612-624 | its sector is a data sector and stands for that record of that host file |
| `HostDisk.Disk.ReadImported` | src/biosapi.cpp:558-632 | byte i of record r, found through the directory, is byte 128r + i of the host file if the file has it, else that of the buffer |
| `HostDisk.Disk.ReadAt` | src/biosapi.cpp:558-624 | a data sector given by track and sector, with what it holds |
| `HostBdos.AcceptsIsMatch` | cpm22/bdos.asm:1306-1339 | for one file a match of fifteen bytes is that of extent, under its mask, and module |
| `HostBdos.AcceptsExact` | src/biosapi.cpp:98-99 | the BDOS accepts the entry that holds an extent if and only if it is entry 0, or below 16 with mask 0, or a multiple of 16 with mask 1 |
| `HostBdos.NoneEarlier` | src/biosapi.cpp:98-99 | and then no earlier entry of the file in its place |
| `HostBdos.WidthsAgree` | cpm22/bdos.asm:533-541 | host and BDOS use pointers of one width if and only if the disk has not just 256 blocks above 1024 bytes |
| `HostBdos.BdosFinds` | cpm22/bdos.asm:1280-1355 | the entry that holds a record is offered to the BDOS, and first, if and only if it is such an entry |
| `HostBdos.CountDecides` | cpm22/bdos.asm:1732-1746 | in such an entry the record is below the count the BDOS takes from it if and only if the mask is 0, or the record is one of the first 128 and below the count of the first entry |
| `HostBdos.FullEntryRefused` | src/biosapi.cpp:106-108 | with a mask above 0 no record of a file that fills an entry is read |
| `HostBdos.ListedIsOffered` | cpm22/bdos.asm:1280-1355 | the BDOS matches an entry of the host's directory exactly if it is of the file and accepted for the extent |
| `HostBdos.ReadExact` | cpm22/bdos.asm:1732-1760 | a random read ends at the sector that stands for the record if and only if that condition holds, otherwise it is refused or ends at another record of the file |
| `HostBdos.EntriesOwn` | src/biosapi.cpp:112-125 | the directory of imported files gives no block to two files and none that is reserved |
| `HostBdos.LogIn` | cpm22/bdos.asm:1193-1249 | the BDOS logs in a disk of imported files, which makes a sound system |
| `HostBdos.ReadRecord` | src/biosapi.cpp:558-624 | a record of an imported file read through BDOS, BIOS, ports and host comes from its sector if and only if the mask is 0 or it is below 128 and the first count, and is then, byte for byte as far as it goes, that of the host file if the track fits its port; otherwise it is refused or another record of the file is read |
| `HostBdos.ShippedDisks` | cpm22/bios.asm:82-120 | both disks of the BIOS have mask 0 and agree with the host |
| `AsmArithmetic.Mulf` | disks/J/AS5OPER.ASM:253-272 | the product modulo 65536 |
| `AsmArithmetic.Dive` | disks/J/AS5OPER.ASM:210-248 | exact quotient and remainder for every divisor but 0, 0FFFFH and the dividend for 0 |
| `AsmArithmetic.ShiftLeft` | disks/J/AS5OPER.ASM:287-293 | doubling, modulo 65536 |
| `AsmArithmetic.ShiftRight` | disks/J/AS5OPER.ASM:294-308 | halving |
| `AsmArithmetic.Negf` | disks/J/AS5OPER.ASM:200-207 | the two's complement |
| `AsmArithmetic.BitwiseBits` | disks/J/AS5OPER.ASM:326-351 | bit k of the result is set if it is in both operands, in one of them, or in exactly one |
| `AsmArithmetic.LogicSums` | disks/J/AS5OPER.ASM:326-351 | AND and OR add up to the operands, XOR is their difference |
| `AsmArithmetic.Logical` | disks/J/AS5OPER.ASM:326-351 | each of the 16 bits is that of the operation on the operands' bits |
| `AsmExpression.SumLaws` | disks/J/AS5OPER.ASM:274-325 | minus undoes plus, the negative cancels, NOT is one less than it |
| `AsmExpression.ProductLaws` | disks/J/AS5OPER.ASM:210-285 | quotient times divisor plus remainder is the dividend, products are exact modulo 65536 |
| `AsmExpression.ShiftLaws` | disks/J/AS5OPER.ASM:286-308 | shifts are products with powers of two and quotients by them |
| `AsmExpression.LogicLaws` | disks/J/AS5OPER.ASM:326-351 | AND, OR and XOR of any two words bit by bit, and their sums |
| `AsmEvaluator.Evaluator.Stkv` | disks/J/AS5OPER.ASM:94-112 | a value pushed, or an error on a full stack |
| `AsmEvaluator.Evaluator.Stko` | disks/J/AS5OPER.ASM:114-132 | operator and priority pushed, or an error |
| `AsmEvaluator.Evaluator.Lodv1` | disks/J/AS5OPER.ASM:134-153 | a value popped, or an error and 0 |
| `AsmEvaluator.Evaluator.Lodv2` | disks/J/AS5OPER.ASM:155-159 | the two top values |
| `AsmEvaluator.Evaluator.Shft` | disks/J/AS5OPER.ASM:188-198 | counts above 16 are errors |
| `AsmEvaluator.Evaluator.Handle` | disks/J/AS5OPER.ASM:274-351 | each binary operator's value |
| `AsmEvaluator.Evaluator.ApplyTop` | disks/J/AS5OPER.ASM:161-186 | the operator applied to the value stack |
| `AsmEvaluator.Evaluator.ReduceTo` | disks/J/AS5OPER.ASM:467-489 | operators of at least the priority applied |
| `AsmEvaluator.Evaluator.EnterOp` | disks/J/AS5OPER.ASM:467-520 | reduction, stacking, and the match of parentheses |
| `AsmEvaluator.Evaluator.Item` | disks/J/AS5OPER.ASM:410-583 | one item of the operand field |
| `AsmEvaluator.Evaluator.Scan` | disks/J/AS5OPER.ASM:371-583 | EVALUE and the error flag are those of the machine on the field |
| `AsmExpression.ReducePending` | disks/J/AS5OPER.ASM:467-489 | reducing a rising run of operators collapses it to one value |
| `AsmExpression.Follows` | disks/J/AS5OPER.ASM:410-583 | the text of an expression leaves its value pending on any stacks it fits |
| `AsmExpression.Overflows` | disks/J/AS5OPER.ASM:94-132 | an expression that does not fit on what is left of the stacks ends in an error |
| `AsmExpression.OpandIsEval` | disks/J/AS5OPER.ASM:371-583 | for every expression of the grammar the machine computes the parse tree's value, or fails exactly when it is too deep or a shift count is refused |
| `AsmEvaluator.Evaluator.ScanExpression` | disks/J/AS5OPER.ASM:371-583 | EVALUE is the parse tree's value modulo 65536, or an error is reported and it is 0, exactly for expressions too deep or with a refused shift count |
| `AsmAcceptance.Balance` | disks/J/AS5OPER.ASM:410-583 | after every field without an error there is one value for each binary operator that waits, each unary one that followed an operand, and the operand just read |
| `AsmAcceptance.AcceptsExact` | disks/J/AS5OPER.ASM:371-583 | a field is accepted if and only if no step fails and one operand is missing at the end for each unary operator after an operand, at most one |
| `AsmAcceptance.ReduceTree` | disks/J/AS5OPER.ASM:467-489 | reducing builds trees of the grammar whose text is what was read |
| `AsmAcceptance.RunParsed` | disks/J/AS5OPER.ASM:410-583 | a field without an error in which unary operators are in place is the text of the operators that wait and the trees between them |
| `AsmAcceptance.TextRegular` | disks/J/AS5OPER.ASM:462-467 | in the text of every expression of the grammar unary operators are in place |
| `AsmAcceptance.AcceptedTexts` | disks/J/AS5OPER.ASM:371-583 | a field is the text of an expression that has a value if and only if it is accepted and its unary operators are in place; that value is the field's |
| `AsmAcceptance.TwoOperators` | disks/J/AS5OPER.ASM:467-489 | the second of two operators takes the operand between them if it binds more tightly: products and shifts before sums, AND before OR and XOR |
| `AsmAcceptance.SignAndOperator` | disks/J/AS5OPER.ASM:467-489 | an operator takes the operand of a sign or NOT if it binds more tightly: sums before NOT, NOT before AND |
| `AsmAcceptance.AndBeforeOr` | disks/J/AS5OPER.ASM:467-489 | `a OR b AND c` is a OR (b AND c) for all words |
| `AsmAcceptance.NotBeforeAnd` | disks/J/AS5OPER.ASM:467-489 | `NOT a AND b` is (65535 - a) AND b |
| `AsmAcceptance.ProductBeforeSign` | disks/J/AS5OPER.ASM:467-489 | `-a * b` is the negative of the product modulo 65536 |
| `AsmAcceptance.TrailingNot` | disks/J/AS5OPER.ASM:462-467 | NOT after an operand at the end of a field is accepted and negates it |
| `AsmAcceptance.NotInTheMiddle` | disks/J/AS5OPER.ASM:462-467 | NOT after an operand is made good by a binary operator without a right one |
| `AsmAcceptance.SignAfterProduct` | disks/J/AS5OPER.ASM:467-489 | a sign after an operator that binds as tightly applies it to the operands before it |
| `SymbolTable.ShortKeys` | disks/J/AS3SYM.ASM:153-189 | identifiers of up to sixteen characters are told apart |
| `SymbolTable.LongKeys` | disks/J/AS3SYM.ASM:153-189 | longer ones that differ in one character are, if it is among the first sixteen or the codes differ modulo 128 |
| `SymbolTable.ChainDescends` | disks/J/AS3SYM.ASM:211-247 | chains strictly descend in address |
| `SymbolTable.HoldsMore` | disks/J/AS3SYM.ASM:250-315 | a new entry keeps all others and all chains |
| `SymbolTable.HoldsChange` | disks/J/AS3SYM.ASM:323-370 | rewriting an entry keeps all others and all chains |
| `SymbolTable.MapIsLatest` | disks/J/AS3SYM.ASM:191-247 | the map gives the latest symbol of a key |
| `SymbolTable.MapOfChange` | disks/J/AS3SYM.ASM:323-370 | changing it changes the map at that key only |
| `SymbolTable.Table.constructor` | disks/J/AS3SYM.ASM:135-150 | an empty map |
| `SymbolTable.Table.Chash` | disks/J/AS3SYM.ASM:153-163 | the sum of all characters modulo 128 |
| `SymbolTable.Table.SameName` | disks/J/AS3SYM.ASM:176-239 | length and characters equal |
| `SymbolTable.Table.Walk` | disks/J/AS3SYM.ASM:211-247 | the latest symbol with the key, or none |
| `SymbolTable.Table.Lookup` | disks/J/AS3SYM.ASM:191-247 | found if and only if the key is in the map, with its type and value |
| `SymbolTable.Table.WriteEntry` | disks/J/AS3SYM.ASM:292-315 | the packed entry, nothing below it changed |
| `SymbolTable.Table.Enter` | disks/J/AS3SYM.ASM:250-321 | the map with the key undefined and 0; refused if and only if it does not fit |
| `SymbolTable.Table.SetTy` | disks/J/AS3SYM.ASM:323-337 | the map with the current key's type changed |
| `SymbolTable.Table.GetTy` | disks/J/AS3SYM.ASM:339-349 | the current key's type |
| `SymbolTable.Table.ValAdr` | disks/J/AS3SYM.ASM:351-360 | the value follows the characters |
| `SymbolTable.Table.SetVal` | disks/J/AS3SYM.ASM:362-370 | the map with the current key's value changed |
| `SymbolTable.Table.GetVal` | disks/J/AS3SYM.ASM:372-378 | the current key's value |
| `SymbolTable.Table.Resolve` | disks/J/AS3SYM.ASM:191-321 | the identifier's symbol is current, new ones undefined; refused if and only if it is new and does not fit |
| `SymbolTable.TopRises` | disks/J/AS3SYM.ASM:262-290 | the top of the table never comes down over a run of definitions |
| `SymbolTable.Table.Define` | disks/J/AS3SYM.ASM:191-370 | one definition changes the map at its key; refused, with nothing changed, if and only if the key is new and does not fit below SYMAX |
| `SymbolTable.Table.DefineAll` | disks/J/AS3SYM.ASM:135-370 | a run of definitions makes the map it should, and gets through if and only if all new identifiers fit |
| `HexWriter.NibbleIsDigit` | disks/J/AS1IO.ASM:675-680 | the two decimal adjustments print the digit |
| `HexWriter.Writer.Wrc` | disks/J/AS1IO.ASM:658-673 | two digits, the byte in the checksum |
| `HexWriter.Writer.WriteHead` | disks/J/AS1IO.ASM:682-703 | colon, length, address and type with their sum |
| `HexWriter.Writer.WriteData` | disks/J/AS1IO.ASM:704-711 | the data with its sum |
| `HexWriter.Writer.Whex` | disks/J/AS1IO.ASM:682-721 | one printed record with its checksum |
| `HexWriter.Writer.Dhex` | disks/J/AS1IO.ASM:604-656 | the byte is recorded at its address, whatever the buffer holds, and records are as long as they can be: sixteen bytes, or up to a gap |
| `HexWriter.Writer.Finish` | disks/J/AS1IO.ASM:558-564 | all bytes printed and an end record |
| `HexFormat.ReadPrintedRecord` | disks/J/LOAD.PLM:288-312 | a printed record passes its checksum and stores its bytes |
| `HexFormat.ReadPrintedAll` | disks/J/LOAD.PLM:281-313 | a printed text stores all its bytes in order |
| `HexFormat.StoreIncreasing` | disks/J/LOAD.PLM:203-219 | bytes at rising addresses never fall behind the window, up to the top of memory |
| `HexFormat.PadZeros` | disks/J/LOAD.PLM:315-320 | the last paragraph is filled with zeros |
| `HexFormat.PadFails` | disks/J/LOAD.PLM:315-320 | above 0FF00H the padding always ends in an inverted address |
| `HexFormat.LoadPrinted` | disks/J/LOAD.PLM:274-320 | LOAD's image has every byte at its address and zeros after the last if they end by 0FF00H; else an inverted address, or at the very top the last 256 bytes lost |
| `ComLoader.DigitValue` | disks/J/LOAD.PLM:244-253 | the digit's value by byte arithmetic |
| `ComLoader.Loader.constructor` | disks/J/LOAD.PLM:335 | window and load address at 0100H, the file empty |
| `ComLoader.Loader.WriteParagraph` | disks/J/LOAD.PLM:208-217 | 128 bytes of the window in the file |
| `ComLoader.Loader.StoreByte` | disks/J/LOAD.PLM:203-219 | the sliding window is the memory image; its 16-bit end never wraps |
| `ComLoader.Loader.GetData` | disks/J/LOAD.PLM:302-305 | the bytes of a record in the image, with their sum |
| `ComLoader.Loader.GetRecord` | disks/J/LOAD.PLM:288-312 | one record read, or its error |
| `ComLoader.Loader.Drain` | disks/J/LOAD.PLM:315-320 | the window emptied |
| `ComLoader.Loader.Reloc` | disks/J/LOAD.PLM:274-320 | the file is the image of the text, or the error LOAD reports |
| `HexChecksum.ReadBytes` | disks/J/LOAD.PLM:288-312 | a record of any bytes is refused exactly if they do not sum to zero or cannot be stored |
| `HexChecksum.DamageRefused` | disks/J/LOAD.PLM:308-312 | a printed text with one data or checksum byte replaced by another is a checksum error, whatever follows |
| `HexChecksum.ReadRecordsExact` | disks/J/LOAD.PLM:281-313 | any text is read to its end if and only if every record has its digit pairs, they sum to zero, and all bytes can be stored; the image is what storing them makes |
| `HexChecksum.LoadedSums` | disks/J/LOAD.PLM:281-320 | so a text is loaded only if the digit pairs of every record sum to zero |
| `HexChecksum.DigitsAreText` | disks/J/LOAD.PLM:244-253 | the digits are those of the ASCII text |
| `HexChecksum.PrintedSample` | disks/J/AS1IO.ASM:682-721 | the record of the byte 41H at 0100H, character by character |
| `HexRoundTrip.LoadDamaged` | disks/J/LOAD.PLM:203-320 | LOAD reports a checksum error for every such damage |
| `HexRoundTrip.LoadAny` | disks/J/LOAD.PLM:203-320 | LOAD ends without an error only if all sums are zero |
| `HexRoundTrip.Assemble` | disks/J/AS1IO.ASM:558-721 | the text holds exactly the bytes assembled, and LOAD does with it what LoadPrinted says, whatever follows it |
| `HexRoundTrip.LoadText` | disks/J/LOAD.PLM:203-320 | the file has every byte at its address and zeros after the last if and only if they end by 0FF00H; what happens otherwise |
| `HexRoundTrip.AssembleAndLoad` | disks/J/LOAD.PLM:203-320 | bytes at rising addresses from 0100H come back at address less 0100H, zeros after the last, if and only if they end by 0FF00H; above it an error, with a byte at 0FFFFH a file without the last 256 bytes |
| `Telnet.StripCommand` | src/server.cpp:144-190 | a complete command leaves nothing |
| `Telnet.StripAppend` | src/server.cpp:144-190 | text without an open command is stripped on its own |
| `Telnet.CommandInvisible` | src/server.cpp:108-215 | a complete command anywhere, even between CR and LF, does not show |
| `Telnet.PieceTyped` | src/server.cpp:108-215 | text, an end of line, a data byte 255 or a command, followed by anything: what each yields |
| `Telnet.SessionTyped` | src/server.cpp:108-215 | a session yields its text, one CR for CR LF, CR NUL or LF, and nothing for commands |
| `Telnet.BareReturn` | src/server.cpp:191-214 | a CR that neither LF nor NUL follows is an end of line too |
| `Telnet.Console.ReceiveSession` | src/server.cpp:108-215 | the program gets just that |
| `Telnet.Console.Enqueue` | src/server.cpp:61-65 | the byte is typed last |
| `Telnet.Console.ConIn` | src/server.cpp:96-106 | bytes are taken in the order typed, 0 for none; the thread ends exactly on a control-Q |
| `Telnet.Console.PassOn` | src/server.cpp:191-214 | one byte through the line-end rule |
| `Telnet.Console.OnByte` | src/server.cpp:141-214 | one byte through the state machine: what was typed and what the rest will yield stay together |
| `Telnet.Console.Receive` | src/server.cpp:108-215 | the bytes typed are the normalised, stripped input |

## Left out

- BDOS console functions, error prompts, write protection, read-only files, checksums of the directory, automatic
  drive selection, rename and attributes.
- The BDOS directory buffer: an operation sees the directory as a sequence of entries; the buffer is read anew by
  every search. Bytes 16 to 31 of an entry are modelled as its block numbers, sixteen bytes or eight words.
- Ownership of blocks is stated per file, not per place in a file: after a failed GETNEXT a control block names the
  next extent with the blocks of the old one.
- Function 40, which fills a new block with zeros before a random write.
- Bdos.Drive.RdSeq1: asks that a record below the count be one of its entry; beyond it GETBLOCK takes bytes behind the
  block table. So does Bdos.Drive.Run of a sequential read.
- Bdos.Drive.AppendThenRead: asks that the record be not the last of its extent, after which the control block is
  that of the next one; so does BdosFiles.AppendCloseRead. BdosFiles.WriteAndRead goes over all extents.
- BdosFiles.WriteAndRead: asks that the file be new and written from record 0 of extent 0 on, by one control block and
  without other calls in between.
- HostBdos.ReadRecord: asks that the names of the imported files differ in the lower seven bits of their letters, which
  is all that the BDOS compares, and that the BDOS have the host's directory; reading it from the directory sectors
  is not modelled.
- Bdos.Drive.Make: asks for a name without wild cards whose first byte is not 65H or 0E5H, the empty mark, which the
  BDOS does not check; so does Bdos.Drive.Run.
- Bdos.Drive.Open: asks for a first byte that is not "?", 65H or 0E5H; for these BdosDirectory.MarkCanLose shows
  that the search misses entries.
- Bdos.Drive.EraFile: asks the same of the pattern.
- Bdos.Drive.RanSize: asks for a first byte that is not "?" or 65H.
- Quicksort.Qsort: asks for at least one element; in an empty area the code compares elements that do not exist.
- QuicksortLimit.DepthReached: for depths above 127 the input shown has more values than a byte.
- QuicksortLimit.StackOverruns: what the seventeenth entry overwrites is not modelled.
- Malloc.Heap.Malloc: realloc is not modelled; it frees the area before it copies it.
- Deblocking: errors of the host disk.
- AsmEvaluator.Evaluator.Scan: the scanner and the operand values (strings, numbers, symbols, `$`) are given as a list of tokens.
- SymbolTable.Table.Enter: asks that the table end at least 69 bytes below the top of memory, so that the 16-bit sum does not wrap.
- ComLoader.Loader.Reloc: a text without an end record, on which LOAD would wait for ever, is an error value; disk
  errors are not modelled.
- HexWriter.Writer.Finish: the padding of the last HEX sector is the free `tail` of HexRoundTrip.AssembleAndLoad.
- HostDisk.Disk.Flush: works on a snapshot of the cache's keys in any order; the original erases from the map it walks.
- HostDisk.Disk.AddFile: asks for at most sixteen full extents a file, beyond which HostImport.RecordInPlace shows
  that records are not read back; so does HostDisk.Disk.ImportAll, which also asks for distinct host paths. Scanning
  host directories and folding names to CP/M form are not modelled.
- HostDisk.Disk.constructor: asks for at least one reserved block and for one data block after the last of them.
- Host files are byte sequences whose reads and writes succeed; directory sectors, system tracks, and the delete and
  rename branches of a directory write are not modelled.
- The Z80, its ports, sockets and threads, the monitor, and the floating-point library.
