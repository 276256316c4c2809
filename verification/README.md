# Picture frames, demosaicing and caches of libgphoto2

This project models parts of libgphoto2 that either claim to behave like something simpler or keep an
invariant over their whole life, and proves that they do. It has seven parts.

* **The picture store of AX203 frames** (`Eeprom`, `SectorCache`, `AbfsFormat`, `FrameParameters`, `AbfsStore`,
  `Allocation`, `Album`, `PictureFrame`, `UnalignedFrames`, `TruncatedPictures`). A SPI flash chip that erases to ones
  and can only clear bits; a cache of 4K sectors with present and dirty marks, written back in 64K blocks; the ABFS table
  in its three encodings; a first-fit hole allocator whose retry is mutually recursive with a defragmenter. The chain of
  refinements ends in `PictureFrame.Session`: any run of uploads and deletions, then a commit, leaves on the chip what an
  abstract album of limited capacity holds, and on frames whose picture sizes do not fit the table, what
  `Albums.RunLone` says.
* **The JPEG-like format of AX206 frames** (`Bits`, `BitReservoir`, `Huffman`, `HuffmanTable`, `HuffmanSegments`,
  `DataUnits`, `EntropyBytes`, `McuCoding`, `TinyJpeg`, `Ax206Jpeg`, `Ax206Picture`). The decoder, from its bit reservoir
  over its two-level Huffman tables and run-length decoding to the scan with byte-aligned units, against the bit-by-bit
  description in ITU-T T.81; and the compressor's unit-by-unit re-packing. `Ax206Pictures.ReadBack` says for which
  screens a picture is shown again.
* **The AX203 delta codec** (`DeltaCodec`, `DeltaPictures`). Encoder and decoder in lockstep under 8 bit wrap-around,
  and error bounds for whole pictures.
* **The Canon packet checksum** (`CanonCrc`). The table-driven CRC against bitwise division, its start values and the
  errors it detects.
* **Demosaicing** (`Mosaic`, `AhdStages`, `AhdWindows`, `Bilinear`, `BayerDecode`). Two algorithms that overwrite the
  image they read, against pure functions of the raw image.
* **The library's caches and settings** (`FileCache`, `FolderCache`, `Settings`). An intrusive LRU list, a directory
  cache that refreshes itself while it is searched, and a settings file.
* **Lifetimes** (`CameraLifetime`, `ContextLifetime`). The busy mark with deferred exit and release of a camera, for
  every sequence of nested calls; the atomic reference count of a context, for every interleaving of threads.

State that the source changes in place is a class with fields, an array, or a sequence or map that methods reassign;
each such method is tied to a function or predicate on values, and the properties are proved about those. Bytes are
integers from 0 to 255 (bit vectors in `CanonCrc`), a bit string is a sequence of 0 and 1 with the most significant
bit first, and wrap-around, truncation and C's division towards zero are written out where they occur.

## What turned out false

* A 3.3.x or 3.4.x frame whose picture size is not a multiple of 256 (132x132 pixels, 120x160 or 160x120 delta coded)
  cannot place a picture behind another one: its table entries name 256 byte pages. Such an upload is refused, and when
  the store is fragmented the defragmentation before it loses all pictures but the first.
  `Allocation.WriteSucceedsIff` says exactly when; `UnalignedFrames` is a concrete case.
* The AX206 table has 16 bits for a picture size while the encoder's buffer is larger (76800 bytes for 240x320). A larger
  upload succeeds, and only its first bytes, as many as the size modulo 65536, are ever read back
  (`TruncatedPictures.ReadsBackIff`, `TruncatedPictures.KeepsPrefix`). One of exactly 65536 bytes leaves an entry of
  size 0 (`TruncatedPictures.KeepsNothing`), behind which the allocator can put an upload onto a stored picture
  (`TruncatedPictures.HollowEntryHides`). The byte offsets in an AX206 picture header have the same limit
  (`Ax206Jpeg.EntryOfUnit`).
* The slow search lists of the Huffman decoder end at a zero code, and the first code word is all zeros. If it has ten
  bits or more, every code word of its length is refused as unknown: `HuffmanTables.HuffmanTable.Next` says so for
  every bit string, `HuffmanTables.NothingHiddenIff` when it cannot happen, `HuffmanTables.RefusesItsOnlyWord` is a
  concrete table.
* A 160x120 AX206 frame shows no stored picture: the driver rounds the height in the file to 128 and then compares it
  with the screen's 120 (`Ax206Pictures.ReadBack` for all sizes, `Ax206Pictures.NothingOn160x120`).
* A file listing that the driver fails leaves the folder marked as listed and empty
  (`FolderCaches.FolderCache.ListFilesFails` gives the exact condition under which that is harmless).
* An uploaded file holds its data outside the LRU list, so the bound on cached pictures covers list entries, not files.
  `FileCaches.FileCache.HoldersCounted` counts the files and says exactly when the bound covers them;
  `FileCaches.UploadsOverflow` is a run in which it does not.
* Pending timeouts make `gp_camera_exit` run forever when the frontend has set no function that stops them
  (`CameraLifetime.EndsIff`, and `CameraLifetime.ExitNeverReturns` as a run). Timeouts that a failing driver
  initialisation has started are not stopped when the camera is freed (`CameraLifetime.TimeoutOutlivesCamera`).
* `gp_camera_init` from inside an operation withdraws an earlier `gp_camera_exit` and loses the handle of the open driver
  library (`CameraLifetime.ExitsIff`, `CameraLifetime.InitWithdrawsExit`).
* `gp_camera_init` on a camera whose port is not found leaves the camera marked as busy
  (`CameraLifetime.Camera.LookInVain`, and `CameraLifetime.BusyForEver` as a run).

## Model

| member | source | states |
|---|---|---|
| EepromDevice.Eeprom.Erase | camlibs/ax203/ax203.c:366-390 | erasing a 4K or 64K sector sets its bytes to 0xff; the command needs the chip write-enabled, not busy and unprotected, and ends write enable |
| EepromDevice.Eeprom.ProgramPage | camlibs/ax203/ax203.c:332-345 | programming can only clear bits: each byte becomes the bitwise and of old and new; same demands on the driver as erasing |
| SectorCaches.SectorCache.CheckSectorPresent | camlibs/ax203/ax203.c:516-535 | a missing sector is fetched from the chip; the flat image the cache stands for does not change; a sector past the end is CORRUPTED_DATA |
| SectorCaches.SectorCache.ReadMem | camlibs/ax203/ax203.c:537-558 | reads what the flat byte image holds there; fails exactly when the range runs past the memory |
| SectorCaches.SectorCache.WriteMem | camlibs/ax203/ax203.c:560-583 | the image is the old one with the data spliced in; a write past the end fails after storing exactly the part that fits |
| SectorCaches.SectorCache.CommitBlock4k | camlibs/ax203/ax203.c:1582-1600 | the block is clean afterwards: none of its sectors is dirty and the chip agrees with the image on them; all other sectors keep their marks, and the clean ones still agree |
| SectorCaches.SectorCache.CommitBlock64k | camlibs/ax203/ax203.c:1602-1624 | the same for a whole-block erase: all 16 sectors are cached before the erase, so nothing of the block is lost |
| SectorCaches.SectorCache.CommitBlock64kAtOnce | camlibs/ax203/ax203.c:1626-1687 | the same for chips that program 64K at once; the protection is removed first and the checksum mismatch branch is not reached |
| SectorCaches.SectorCache.Commit | camlibs/ax203/ax203.c:1689-1722 | refinement: the chip ends up equal to the flat image, with no dirty sector left, whichever of the three commit paths each block takes; every erase and program meets the chip's demands |
| SectorCaches.BlockRewritten | camlibs/ax203/ax203.c:1582-1687 | erasing one 64K block and writing it back from the image repairs that block and touches no other |
| AbfsFormat.EntryRoundTrip | camlibs/ax203/ax203.c:849-982 | a picture entry written to the table reads back as itself if and only if the firmware's entry format can express it (24 bit aligned address; 16 bit size on the AX206; pages on the AX3003) |
| AbfsFormat.AbsentRoundTrip | camlibs/ax203/ax203.c:868-982 | an entry written as absent reads back as absent |
| AbfsFormat.EntryOfPicture | camlibs/ax203/ax203.c:893-929 | an entry for a picture in memory reads back with its address and the size that is kept, which on the AX206 is the size modulo 65536 |
| AbfsFormat.PictureSizeIsAligned | camlibs/ax203/ax203.c:771-786 | of the accepted resolutions exactly 132x132, and 120x160 and 160x120 delta coded, give picture sizes that are not a multiple of 256 |
| AbfsStore.PlacedExtendsView | camlibs/ax203/ax203.c:1471-1513 | entering a picture in free memory keeps the store well formed (pictures disjoint, behind the header, below the memory end), and adds exactly what is kept of that picture to what a reader sees |
| AbfsStore.ClearedShrinksView | camlibs/ax203/ax203.c:1533-1551 | emptying a slot keeps the store well formed and removes exactly that picture |
| AbfsStore.HollowCleared | camlibs/ax203/ax203.c:1533-1551 | deleting an entry of size 0 gives back a well-formed store with all other pictures |
| AbfsStore.SortProperties | camlibs/ax203/ax203.c:1425-1426 | the sorted table is ordered, holds the same entries and has the same total size |
| AbfsStore.SumHolesTelescopes | camlibs/ax203/ax203.c:1479-1505 | the holes between consecutive table entries add up to the span of the table minus the used bytes |
| AbfsStore.UsedTableProperties | camlibs/ax203/ax203.c:1398-1451 | in a well-formed store the table of used memory has no negative hole, and the sum of all holes is the capacity minus the sizes of the pictures |
| AbfsStore.HolesAreFree | camlibs/ax203/ax203.c:1471-1505 | every hole of the table is memory no picture touches |
| AbfsStore.PackedHoles | camlibs/ax203/ax203.c:1278-1333 | in a store whose pictures lie back to back behind the header there is exactly one hole, behind the last picture |
| Allocation.FreeMemoryBounds | camlibs/ax203/ax203.c:1471-1505 | free memory is never negative and at least as large as any hole |
| Allocation.PackedHasRoom | camlibs/ax203/ax203.c:1471-1513 | in a packed store a request that fits the total finds a hole, right behind the pictures, so defragmentation is needed at most once |
| Allocation.HoleStartAligned | camlibs/ax203/ax203.c:1471-1505 | where picture sizes are multiples of 256, so is every hole start |
| Allocation.AlignedWrite | camlibs/ax203/ax203.c:1471-1513 | for frames with aligned sizes the write answers NO_SPACE exactly when the sum of all holes is below the size; otherwise it adds exactly what is kept of the new picture, so fragmentation is invisible |
| Allocation.WriteSucceedsIff | camlibs/ax203/ax203.c:1471-1513 | for every frame and size: the write succeeds if and only if the free memory suffices and the sizes are aligned or the first fitting hole starts on a multiple of 256; it then adds exactly what is kept of the picture; the store stays well formed unless that is nothing; the other pictures are kept if and only if no defragmentation of an unaligned frame with several pictures is needed |
| Allocation.UnalignedHoleStart | camlibs/ax203/ax203.c:868-891 | in a frame with unaligned picture size a hole behind a picture never starts on a multiple of 256 |
| UnalignedFrames.UploadLosesSecondPicture | camlibs/ax203/ax203.c:1278-1333 | a concrete 132x132 frame on a 512K chip, whose image the driver accepts when it opens it, with two pictures and room for a third in pieces: every upload answers BAD_PARAMETERS and the second picture is gone |
| FrameParameters.OpenedIsValid | camlibs/ax203/ax203.c:592-742 | every image of whole 64K blocks that passes the tests on the parameter block, the resolution and the ABFS magic gives a frame description the rest of the driver can work with: table and pictures lie inside the memory, and sizes are known exactly where the table holds none; only an AX3003 could answer with a start too close to its boot loader |
| TruncatedPictures.ReadsBackIff | camlibs/ax203/ax203.c:893-929 | a stored picture reads back exactly if and only if, on an AX206, its size is below 65536; the store stays well formed if and only if the size is no multiple of 65536 |
| TruncatedPictures.KeepsPrefix | camlibs/ax203/ax203.c:1471-1531 | a concrete empty 240x320 AX206 frame, whose image the driver accepts: of every picture of 70000 bytes the first 4464 read back |
| TruncatedPictures.KeepsNothing | camlibs/ax203/ax203.c:1471-1531 | on the same frame a picture of 65536 bytes leaves an entry of size 0, and no other slot changes |
| TruncatedPictures.HollowEntryHides | camlibs/ax203/ax203.c:1391-1505 | what such an entry can lead to: listed behind a picture at the same address, which the sort by address allows, it makes the allocator put the next picture that does not fit in front onto that one |
| PictureFrames.PictureFrame.ReadFileinfo | camlibs/ax203/ax203.c:1025-1043 | decodes the slot from the image; an index outside the table is BAD_PARAMETERS |
| PictureFrames.PictureFrame.WriteFileinfo | camlibs/ax203/ax203.c:1045-1061 | writes the encoded entry, so that the slot reads back as the encoding decodes, and changes no other slot; BAD_PARAMETERS and no change when the entry cannot be encoded |
| PictureFrames.PictureFrame.UpdateFilecount | camlibs/ax203/ax203.c:1001-1023 | stores one more than the highest occupied slot; no slot or picture changes |
| PictureFrames.PictureFrame.BuildUsedMemTable | camlibs/ax203/ax203.c:1398-1451 | returns the header, the present entries in address order and the end of memory |
| PictureFrames.PictureFrame.GetFreeMemSize | camlibs/ax203/ax203.c:1832-1848 | reports the memory not taken by header and pictures |
| PictureFrames.PictureFrame.FindFreeAbfsSlot | camlibs/ax203/ax203.c:1453-1469 | finds the lowest free slot; NO_SPACE exactly when every slot is taken |
| PictureFrames.PictureFrame.ReadRawFile | camlibs/ax203/ax203.c:1335-1367 | returns exactly the bytes of the picture; BAD_PARAMETERS for an empty slot |
| PictureFrames.PictureFrame.DeleteFile | camlibs/ax203/ax203.c:1533-1551 | removes exactly that picture from the album |
| PictureFrames.PictureFrame.DeleteAll | camlibs/ax203/ax203.c:1553-1579 | removes every picture |
| PictureFrames.PictureFrame.WriteRawFile | camlibs/ax203/ax203.c:1471-1513 | first fit with a retry that is mutually recursive with defragmentation; terminates, and its outcome is the one `Allocation.Written` describes |
| PictureFrames.PictureFrame.DefragMemory | camlibs/ax203/ax203.c:1278-1333 | keeps the map from slots to picture bytes, and leaves the store packed; on an unaligned frame it succeeds exactly when there is at most one picture and otherwise keeps only the first |
| PictureFrames.PictureFrame.WriteFile | camlibs/ax203/ax203.c:1515-1531 | an upload to the first free slot, on every frame: NO_SPACE and no change if there is none, else the outcome of the write to that slot |
| PictureFrames.PictureFrame.Commit | camlibs/ax203/ax203.c:1689-1722 | the chip then equals the cached image |
| PictureFrames.PictureFrame.Session | camlibs/ax203/ax203.c:1471-1722 | refinement over whole runs, on every frame and for every picture size: any sequence of uploads, deletions and delete-alls goes through images each of which follows from the one before by what one request may do, and after a commit the flash chip equals the last one; with aligned sizes it holds the album, and the answers were the ones, that the abstract album of limited capacity gives. The run is followed to its end or, if it stores a picture of which nothing is kept, up to that entry |
| Albums.ServedForm | camlibs/ax203/ax203.c:1471-1579 | one request leaves the store well formed, except an upload of which nothing is kept: it leaves an empty entry and every other slot as it was |
| Albums.RunAligned | camlibs/ax203/ax203.c:1471-1579 | with sizes that are multiples of 256 every run of images is a run of the abstract album |
| Albums.ServedLone | camlibs/ax203/ax203.c:868-891 | in an unaligned frame with at most one picture, at the front of the picture area, each request keeps it so; the answer is that of the album, except that a second picture for which there is room is BAD_PARAMETERS |
| Albums.RunLone | camlibs/ax203/ax203.c:1471-1579 | the same over every run: an unaligned frame that starts with at most one picture never holds two, and album and answers of the whole run are determined |
| Albums.ServeAllBounds | camlibs/ax203/ax203.c:1832-1848 | no run of requests overfills the frame |
| Albums.UploadDelete | camlibs/ax203/ax203.c:1471-1551 | upload followed by delete gives back the album and the room there was before |
| Bits.ValueConcat | camlibs/ax203/tinyjpeg.c:126-139 | appending bits to the reservoir shifts its value: the value of a concatenation |
| Bits.BitsOfConcat | camlibs/ax203/tinyjpeg.c:126-139 | the bit string of concatenated bytes is the concatenation of their bit strings |
| BitReservoir.BitReader.Fill | camlibs/ax203/tinyjpeg.c:126-139 | the 32 bit reservoir always holds the last bits taken from the stream, as many as fit; filling fails exactly when too few bits are left and consumes none |
| BitReservoir.BitReader.Look | camlibs/ax203/tinyjpeg.c:153-156 | returns the value of the next bits without consuming them |
| BitReservoir.BitReader.Skip | camlibs/ax203/tinyjpeg.c:164-167 | consumes exactly n bits |
| BitReservoir.BitReader.Get | camlibs/ax203/tinyjpeg.c:144-151 | consumes n bits, for every n up to 63, and returns what a 16 bit variable receives of them |
| BitReservoir.SignedSteps | camlibs/ax203/tinyjpeg.c:144-151 | what that is: up to 16 bits the signed value of section F.1.2.1 of ITU-T T.81; of a longer field only the last 16 bits, plus one if the first of these is 0 or the field has more than 32 bits |
| BitReservoir.HighBits | camlibs/ax203/tinyjpeg.c:144-151 | bits that fell out of the 32 bit reservoir do not matter for a 16 bit result |
| BitReservoir.BitReader.Realign | camlibs/ax203/tinyjpeg.c:540-545 | moves to the next byte boundary, the ceiling of the consumed bits over 8 |
| Huffman.PrefixFree | camlibs/ax203/tinyjpeg.c:288-372 | canonical code words (Annex C of ITU-T T.81) of a code with a valid Kraft sum: at most one of them starts a bit string |
| Huffman.StartsWithIffOwns | camlibs/ax203/tinyjpeg.c:186-203 | a bit string starts with a code word exactly when its 16 bit window falls into that word's interval |
| Huffman.CodeBound | camlibs/ax203/tinyjpeg.c:303-320 | with a valid Kraft sum each code fits its length |
| HuffmanTables.ExpandSizes | camlibs/ax203/tinyjpeg.c:288-302 | expands the counts per length into the list of lengths |
| HuffmanTables.AssignCodes | camlibs/ax203/tinyjpeg.c:303-320 | assigns the codes of Annex C |
| HuffmanTables.HuffmanTable.Build | camlibs/ax203/tinyjpeg.c:288-372 | the lookup and slow tables represent the canonical code, whatever its shortest word; refused exactly when some length from 10 to 16 has more than 127 codes |
| HuffmanTables.HuffmanTable.Next | camlibs/ax203/tinyjpeg.c:186-221 | the 9 bit lookup followed by the slow tables returns the symbol, and consumes the bits, that bit-by-bit decoding (section F.2.2.3 of ITU-T T.81) gives, if and only if the bits do not start with a hidden word: one of the length of an all-zero first word of ten bits or more. Those are refused as unknown, or for want of bits |
| HuffmanTables.NothingHiddenIff | camlibs/ax203/tinyjpeg.c:205-217 | the tables serve every bit string if and only if the shortest code word has at most nine bits |
| HuffmanTables.RefusesItsOnlyWord | camlibs/ax203/tinyjpeg.c:205-221 | a concrete case: the table of one code word of ten bits is built, and sixteen zero bits, which start with that word, are refused as an unknown code |
| HuffmanTables.FastLookup | camlibs/ax203/tinyjpeg.c:186-203 | an entry of the lookup table is the symbol of the code word at the front of the window, or -1 when no word of at most 9 bits is there |
| HuffmanTables.RowLookup | camlibs/ax203/tinyjpeg.c:205-217 | a word is found in the slow list of its length exactly when the bits start with it |
| HuffmanTables.CountOfExpanded | camlibs/ax203/tinyjpeg.c:288-302 | the expanded list holds as many entries of a length as the segment announces |
| DataUnits.NextSymbol | camlibs/ax203/tinyjpeg.c:186-221 | the same, seen through a code book: symbol and remaining bits |
| DataUnits.DecodeDc | camlibs/ax203/tinyjpeg.c:238-249 | the DC coefficient is the running prediction plus the decoded difference, for every category up to 63 |
| DataUnits.DecodeAc | camlibs/ax203/tinyjpeg.c:251-275 | run-length decoding of the AC coefficients equals the description; it ends because each code word takes at least one bit |
| DataUnits.DecodeUnit | camlibs/ax203/tinyjpeg.c:229-279 | a block is decoded as section F.2.2 of ITU-T T.81 describes it, in natural order, with all failure cases |
| DataUnits.AcKeepsDc | camlibs/ax203/tinyjpeg.c:251-275 | AC decoding never touches the DC coefficient |
| DataUnits.FrontOfWord | camlibs/ax203/tinyjpeg.c:186-221 | eight bits behind a code word are lookahead enough to decode it, if and only if it is not hidden |
| DataUnits.AcRoundTrip | camlibs/ax203/tinyjpeg.c:251-275 | decoding the run-length coding of section F.1.2.2 gives the coefficients back if none of its code words is hidden, and fails otherwise |
| DataUnits.DcRoundTrip | camlibs/ax203/tinyjpeg.c:238-249 | decoding a coded DC difference gives the DC value back unless its code word is hidden, and fails then |
| DataUnits.UnitRoundTrip | camlibs/ax203/tinyjpeg.c:229-279 | decoding a coded block gives the block back and stops exactly behind it if none of its code words is hidden, and fails otherwise |
| EntropyBytes.CopyHuffman | camlibs/ax203/ax203_compress_jpeg.c:73-87 | writes the bytes of the source without the stuffed zeros and nothing else |
| EntropyBytes.CopyUndoesStuffing | camlibs/ax203/ax203_compress_jpeg.c:73-87 | undoes byte stuffing (section F.1.2.3 of ITU-T T.81) on every byte string |
| EntropyBytes.BitsOfPack | camlibs/ax203/ax203_compress_jpeg.c:217-221 | bytes packed from bits denote those bits and fewer than eight padding ones |
| McuCoding.McuRoundTrip | camlibs/ax203/tinyjpeg.c:562-594 | the decoder's running predictors undo differential coding (section A.3.5 of ITU-T T.81); it stops exactly behind the unit |
| McuCoding.RebasedUnit | camlibs/ax203/ax203_compress_jpeg.c:296-304 | a block coded alone against a rebased DC value has the same bits as the block coded against the running predictor |
| McuCoding.RebaseKeepsBits | camlibs/ax203/ax203_compress_jpeg.c:296-320 | re-packing loses nothing: the re-based unit coded with zero predictors is, bit for bit, the unit coded against the running predictors, though all four luma blocks lose the same value |
| McuCoding.AcItemsTail | camlibs/ax203/ax203_compress_jpeg.c:296-320 | the AC part of a block does not depend on its DC value |
| TinyJpeg.JpegDecoder.DecodeMcu | camlibs/ax203/tinyjpeg.c:537-594 | a unit starts at the next byte boundary, its blocks come as Cb, Cr, Y; with all failure cases |
| TinyJpeg.JpegDecoder.Decode | camlibs/ax203/tinyjpeg.c:850-927 | the scan is decoded unit by unit with predictors that start at zero; accepted if and only if every unit decodes and at most one byte lies behind the bytes looked ahead at, which reach at most two bytes behind the last unit |
| Ax206Jpeg.AddMcuInfo | camlibs/ax203/ax203_compress_jpeg.c:89-113 | writes the eight bytes of a unit table entry and nothing else |
| Ax206Jpeg.Repack | camlibs/ax203/ax203_compress_jpeg.c:255-351 | writes header-table entries and the units from byte boundaries on, leaving header and tables alone; refused exactly when some unit does not fit before its stuffed zeros are dropped |
| Ax206Jpeg.UnitAlone | camlibs/ax203/tinyjpeg.c:562-594 | each unit decodes from its byte offset and predictors alone |
| Ax206Jpeg.ScanRoundTrip | camlibs/ax203/tinyjpeg.c:850-927 | decoding the packed units gives them back, for any number of units |
| Ax206Jpeg.PictureRoundTrip | camlibs/ax203/ax203.c:1350-1356 | with the one byte that is allocated behind a file, a packed picture decodes to the coefficients it was made from and exactly one byte is left over |
| Ax206Jpeg.EntryOfUnit | camlibs/ax203/ax203_compress_jpeg.c:89-113 | a unit table entry always gives the predictors, and gives the byte offset if and only if the offset less 16 and less 8 per earlier unit is below 65536 |
| Ax206Jpeg.EntryDecodes | camlibs/ax203/ax203_compress_jpeg.c:89-90 | decoding can start at any unit from its table entry |
| Ax206Pictures.DezigzagZigzag | camlibs/ax203/tinyjpeg.c:277-278 | the decoder's zigzag table inverts the coding order of figure A.6 of ITU-T T.81 |
| Ax206Pictures.HeaderRoundTrip | camlibs/ax203/ax203.c:1107-1131 | what the decoder reads from the header the compressor wrote: the number of units, four luma blocks, the table numbers and the start of the Huffman data, if and only if the width is not a multiple of 16 or the height is one; otherwise CORRUPTED_DATA |
| Ax206Pictures.NeverShown | camlibs/ax203/ax203.c:1107-1131 | a screen whose width is a multiple of 16 and whose height is not shows nothing, whatever the file |
| Ax206Pictures.OnlyOneScreenIsBlank | camlibs/ax203/ax203.c:598-609 | of the accepted resolutions this is 160x120 alone |
| Ax206Pictures.NothingOn160x120 | camlibs/ax203/ax203.c:1107-1131 | the failing case at 160x120, for every file |
| HuffmanSegments.ParseDht | camlibs/ax203/tinyjpeg.c:650-696 | taking the stored Huffman tables apart: every table that they define, the last one of a number, represents the code of its segment; refused exactly when a number is above 3 or a length from 10 to 16 has more than 127 codes |
| Ax206Pictures.ReadBack | camlibs/ax203/ax203.c:1107-1146 | what the compressor wrote for a picture of w x h pixels, Huffman tables included, the driver shows, coefficient for coefficient in natural order, if and only if it accepts the tables and w is not a multiple of 16 or h is one; otherwise it answers CORRUPTED_DATA |
| Ax206Pictures.SimpleSegments | camlibs/ax203/tinyjpeg.c:650-696 | an example: four stored tables that meet its requirements |
| Ax206Pictures.BlankPicture | camlibs/ax203/ax203_compress_jpeg.c:255-351 | an example: blank pictures of any size meet the requirements of the re-packing theorems |
| DeltaCodec.FindClosest | camlibs/ax203/ax203_decode_yuv_delta.c:146-202 | finds the first of the admissible corrections closest to the value, 0 when there is none |
| DeltaCodec.ClosestAmongIsClosest | camlibs/ax203/ax203_decode_yuv_delta.c:146-202 | what the search loop keeps is the first closest admissible correction so far |
| DeltaCodec.SelectTable | camlibs/ax203/ax203_decode_yuv_delta.c:204-229 | the finest correction table whose span covers all four values |
| DeltaCodec.Encode | camlibs/ax203/ax203_decode_yuv_delta.c:204-302 | the two bytes of four values |
| DeltaCodec.Decode | camlibs/ax203/ax203_decode_yuv_delta.c:60-81 | the four values of two bytes |
| DeltaCodec.Lockstep | camlibs/ax203/ax203_decode_yuv_delta.c:60-302 | the decoder reproduces the encoder's running bases for every input, 8 bit wrap-around included |
| DeltaCodec.NextIsNear | camlibs/ax203/ax203_decode_yuv_delta.c:146-202 | a legal value always has an admissible correction within the bound of the table, and the next base is legal |
| DeltaCodec.DecodedIsNear | camlibs/ax203/ax203_decode_yuv_delta.c:60-302 | in-range values decode to in-range values, off by at most 7 for the first and by at most 31, 15, 7, 4 (chroma) or 27, 11, 4, 4 (luma) under tables 0 to 3 for the others |
| DeltaCodec.BoundIsReached | camlibs/ax203/ax203_decode_yuv_delta.c:60-302 | the bound 31 is the best one: -112 followed by 111 misses by exactly 31 |
| DeltaPictures.EncodeBlock | camlibs/ax203/ax203_decode_yuv_delta.c:304-369 | the twelve bytes of a block: U, V, then Y square by square |
| DeltaPictures.DecodeBlock | camlibs/ax203/ax203_decode_yuv_delta.c:85-114 | shows exactly the values of the block and changes no other block |
| DeltaPictures.EncodePicture | camlibs/ax203/ax203_decode_yuv_delta.c:371-382 | stores every block at its place, row by row, and nothing behind the picture |
| DeltaPictures.DecodePicture | camlibs/ax203/ax203_decode_yuv_delta.c:134-144 | shows every block of the data |
| DeltaPictures.PictureIsNear | camlibs/ax203/ax203_decode_yuv_delta.c:134-382 | for every picture size in 4x4 blocks: in every 2x2 square of every plane the decoded values are legal and within the error bounds of the original |
| DeltaPictures.RoundTrip | camlibs/ax203/ax203_decode_yuv_delta.c:134-382 | the encoder and then the decoder, on any picture with legal values: every block comes out within these bounds |
| DeltaPictures.AtMonotone | camlibs/ax203/ax203_decode_yuv_delta.c:371-382 | blocks do not overlap in the data |
| CanonCrc.Chksum | camlibs/canon/crc.c:186-194 | the loop computes the table-driven checksum |
| CanonCrc.TableIsDivision | camlibs/canon/crc.c:11-47 | all 256 table entries are eight division steps by the reflected polynomial 0x8408 |
| CanonCrc.UpdateIsDivision | camlibs/canon/crc.c:186-194 | one table lookup divides by eight message bits (appendix C.2 of RFC 1662) |
| CanonCrc.CrcIsDivision | camlibs/canon/crc.c:186-194 | checksum equals bitwise division of the whole message, for every message and start value |
| CanonCrc.CrcLinear | camlibs/canon/crc.c:186-194 | checksums of combined messages combine: exclusive or in, exclusive or out |
| CanonCrc.SeedBijection | camlibs/canon/crc.c:227-237 | for every message start values and checksums correspond one to one |
| CanonCrc.Guess | camlibs/canon/crc.c:227-237 | the search always ends with the one start value that fits; the error exit behind the loop is unreachable |
| CanonCrc.BurstDetected | camlibs/canon/crc.c:251-265 | two packets of one length that differ only inside 16 consecutive bits never have the same checksum |
| CanonCrc.GenCrc | camlibs/canon/crc.c:203-224 | the checksum under the start value of the length; an error exactly for lengths below 5 and above 1020 |
| CanonCrc.ChkCrc | camlibs/canon/crc.c:239-265 | accepts exactly the right checksum; packets of unknown length always pass |
| CanonCrc.SendAndCheck | camlibs/canon/crc.c:203-265 | a packet of 5 to 1020 bytes passes with its own checksum; altered inside a 16 bit burst it is rejected |
| Mosaic.TilesAgree | libgphoto2/bayer.c:37-45 | expansion (colour table) and interpolation (position codes) agree for all eight tilings on where each colour was sampled |
| BayerDecode.SamplesUsedOnce | libgphoto2/bayer.c:107-125 | interlaced sensors: every stored sample is used for exactly one column |
| BayerDecode.Expand | libgphoto2/bayer.c:74-128 | each pixel has its sample in its native channel and zero elsewhere |
| AhdStages.SamplesSurvive | libgphoto2/ahd_bayer.c:418-616 | every raw sensor sample survives demosaicing |
| AhdStages.HomogeneityFits | libgphoto2/ahd_bayer.c:555-576 | the sums over nine scores are at most 36, so the 8 bit buffers of the source never wrap |
| AhdStages.FlatFieldStaysFlat | libgphoto2/ahd_bayer.c:97-315 | an evenly lit sensor gives an even grey at every pixel, borders included: the weights of every stage add up to one |
| AhdWindows.GreenPixelLocal | libgphoto2/ahd_bayer.c:232-315 | green at row y needs image rows y-2 to y+2 only |
| AhdWindows.RbPixelLocal | libgphoto2/ahd_bayer.c:96-218 | red and blue are read only at native sites, where a finished row and a row with only its greens agree |
| AhdWindows.DoGreenRow | libgphoto2/ahd_bayer.c:232-315 | fills in the greens of one window row as the whole-image stage does, though earlier image rows are overwritten already |
| AhdWindows.DoRbRow | libgphoto2/ahd_bayer.c:96-218 | filling in a row on the spot equals computing it from the three rows as they were |
| AhdWindows.GetDiffs | libgphoto2/ahd_bayer.c:326-379 | scores of window row 3, into the last row of the buffers; the border columns stay as they are |
| AhdWindows.ColumnSumIs | libgphoto2/ahd_bayer.c:567-575 | the flat index that runs over the end of a row lands on a border column and adds nothing |
| AhdWindows.SumAround | libgphoto2/ahd_bayer.c:567-575 | the nine-neighbour sum over the flat buffers is the sum over the neighbours inside the image |
| AhdWindows.StartWindow | libgphoto2/ahd_bayer.c:496-536 | the windows before the first round |
| AhdWindows.NextRow | libgphoto2/ahd_bayer.c:538-551 | after a row has come in, window row r holds row y-2+r of the full copy, black outside the image |
| AhdWindows.WriteRow | libgphoto2/ahd_bayer.c:562-594 | the row written is the row of the whole-image algorithm |
| AhdWindows.Interpolate | libgphoto2/ahd_bayer.c:418-616 | equivalence: two sliding six-row windows over an image overwritten row by row give the result of the whole-image algorithm on two full, black-padded copies, for every tiling, width of at least 2 and height of at least 3 |
| Bilinear.NotAllAbove | libgphoto2/bayer.c:336-343 | four integers cannot all exceed the floor of their mean |
| Bilinear.AccrueBetween | libgphoto2/bayer.c:262-350 | the accrued value lies between the smallest and the largest of the neighbours inside the image |
| Bilinear.AccrueAt | libgphoto2/bayer.c:262-350 | the loops compute that value |
| Bilinear.MissingBetween | libgphoto2/bayer.c:147-251 | every computed channel lies between its in-image neighbours |
| Bilinear.InterpolatedLocal | libgphoto2/bayer.c:147-251 | the result depends on the sensor samples only |
| Bilinear.SamplesSurvive | libgphoto2/bayer.c:147-251 | every raw sensor sample survives |
| Bilinear.Interpolate | libgphoto2/bayer.c:147-251 | interpolation on the spot equals the pure function of the raw mosaic; refused exactly for images less than 2 wide or high |
| BayerDecode.AhdDecode | libgphoto2/ahd_bayer.c:639-646 | expansion followed by the adaptive method; every sensor sample is in the picture |
| BayerDecode.BilinearDecode | libgphoto2/bayer.c:370-378 | expansion followed by the bilinear method; every sensor sample is in the picture |
| FileCaches.FileCache.Check | libgphoto2/gphoto2-filesys.c:2141-2169 | cannot fail in any reachable state |
| FileCaches.FileCache.Count | libgphoto2/gphoto2-filesys.c:2011-2025 | number of list entries with picture data |
| FileCaches.FileCache.RemoveOne | libgphoto2/gphoto2-filesys.c:1931-1967 | unlinks exactly that file and keeps list and back links in order; an error exactly for files that are not listed |
| FileCaches.FileCache.Free | libgphoto2/gphoto2-filesys.c:1969-2009 | the front leaves the list and loses its picture data; no other file changes |
| FileCaches.FileCache.Prune | libgphoto2/gphoto2-filesys.c:2068-2073 | terminates with at most the wanted number of entries that hold data; the survivors are a suffix and keep their data |
| FileCaches.FileCache.Clear | libgphoto2/gphoto2-filesys.c:1895-1929 | empties the list without ever finding it corrupt |
| FileCaches.FileCache.Update | libgphoto2/gphoto2-filesys.c:2027-2139 | the file is last in the list and at most the wanted number of the others hold data |
| FileCaches.FileCache.SetFile | libgphoto2/gphoto2-filesys.c:2185-2260 | after storing picture data at most one more than the wanted number of entries hold data, and the file is no longer one that was uploaded only |
| FileCaches.FileCache.PicturesToKeep | libgphoto2/gphoto2-filesys.c:2053-2066 | the setting if it is there and not negative, else two; two is also stored as the setting if there is none |
| FileCaches.FileCache.DeleteFile | libgphoto2/gphoto2-filesys.c:799-841 | a file leaves the list before it leaves the tree |
| FileCaches.FileCache.Reset | libgphoto2/gphoto2-filesys.c:614-630 | clearing the list and deleting all files leaves nothing behind |
| FileCaches.FileCache.AppendFile | libgphoto2/gphoto2-filesys.c:579-603 | an uploaded file keeps its data outside the list, where pruning never finds it; the files with data outside the list stay exactly the uploaded ones |
| FileCaches.FileCache.HoldersCounted | libgphoto2/gphoto2-filesys.c:2027-2139 | in every reachable state the files that hold data number the list entries that do plus the files uploaded and not stored since, so the bound on cached pictures holds for files if and only if the latter fit in what the list leaves of it |
| FileCaches.UploadsOverflow | libgphoto2/gphoto2-filesys.c:579-603 | a run, for every number of pictures to keep: two more uploads than that and one stored picture, and more files hold data than the bound allows while the list stays within it |
| FileCaches.HoldingWithout | libgphoto2/gphoto2-filesys.c:2081-2112 | taking an entry out never raises the count |
| FolderCaches.FolderCache.Lookup | libgphoto2/gphoto2-filesys.c:350-413 | finds a folder exactly when the device has it, listing the dirty folders on the way; if it had to list one, nothing is known about the folder found; terminates with list_folders on the number of path components |
| FolderCaches.FolderCache.ListFolders | libgphoto2/gphoto2-filesys.c:1002-1048 | lists exactly the subfolders of the device, each once |
| FolderCaches.FolderCache.ListFiles | libgphoto2/gphoto2-filesys.c:938-986 | lists exactly the files of the device, each once |
| FolderCaches.FolderCache.ListFilesFails | libgphoto2/gphoto2-filesys.c:956-972 | a listing the driver fails leaves the folder marked clean and empty; the cache stays coherent if and only if the folder is empty on the device |
| FolderCaches.FolderCache.LookupFile | libgphoto2/gphoto2-filesys.c:415-457 | finds a file exactly when the device has it |
| FolderCaches.FolderCache.DeleteFile | libgphoto2/gphoto2-filesys.c:1097-1126 | removes the file from device and cache |
| FolderCaches.FolderCache.PutFile | libgphoto2/gphoto2-filesys.c:1276-1307 | adds a new file to device and cache; a name is reported as an error, after the upload, exactly if the cache had it in a folder that needed no new listing |
| FolderCaches.FolderCache.DeleteOneByOne | libgphoto2/gphoto2-filesys.c:843-861 | deletes every file |
| FolderCaches.FolderCache.DeleteAll | libgphoto2/gphoto2-filesys.c:877-923 | no file is left, whether the driver's own function is missing, works, or fails after removing any of the files; the cache is coherent again |
| FolderCaches.FolderCache.MakeDir | libgphoto2/gphoto2-filesys.c:1167-1188 | adds a folder to device and cache |
| FolderCaches.FolderCache.RemoveDir | libgphoto2/gphoto2-filesys.c:1201-1261 | removes an empty folder from device and cache |
| FolderCaches.FolderCache.NumberOf | libgphoto2/gphoto2-filesys.c:1368-1404 | finds the number of a file exactly when the device has it |
| FolderCaches.FolderCache.NumberOfName | libgphoto2/gphoto2-filesys.c:1322-1404 | a name is found at a position, and its number is that position again, if and only if the folder is cached with that many files and every folder above it is listed: a folder entered anew has no files yet |
| FolderCaches.FolderCache.NameOfNumber | libgphoto2/gphoto2-filesys.c:1322-1404 | the name at the number of a file is its name |
| FolderCaches.PrunedCoherent | libgphoto2/gphoto2-filesys.c:460-489 | dropping everything below a dirty folder keeps the cache coherent: names unique, cached names on the device, clean lists complete |
| FolderCaches.GrownCoherent | libgphoto2/gphoto2-filesys.c:491-515 | entering a subfolder the device lists keeps it coherent |
| FolderCaches.EntryReplaced | libgphoto2/gphoto2-filesys.c:938-986 | so does changing the files of one folder on both sides |
| FolderCaches.DevicePrefix | libgphoto2/gphoto2-filesys.c:350-413 | every folder above a device folder exists and is listed by its parent |
| SettingsText.ParsePrinted | libgphoto2/gphoto2-setting.c:276-345 | a printed line parses to its entry, even when the value is empty or contains equals signs |
| SettingsText.LoadOfSave | libgphoto2/gphoto2-setting.c:238-345 | verification passes and loading restores the saved list, entries and order, for every list of at most 512 writable entries |
| SettingsStores.LookupUpdated | libgphoto2/gphoto2-setting.c:107-171 | settings are a map: the last value set is found, every other key is as before |
| SettingsStores.SettingsStore.Verify | libgphoto2/gphoto2-setting.c:238-273 | fails, and removes the file, exactly when some line of more than two characters has fewer than two equals signs |
| SettingsStores.SettingsStore.Load | libgphoto2/gphoto2-setting.c:275-314 | memory holds what is on disk |
| SettingsStores.SettingsStore.Save | libgphoto2/gphoto2-setting.c:317-345 | disk holds what is in memory |
| SettingsStores.SettingsStore.Get | libgphoto2/gphoto2-setting.c:107-129 | looks up the settings in force |
| SettingsStores.SettingsStore.Set | libgphoto2/gphoto2-setting.c:142-171 | updates them, in memory and on disk |
| SettingsStores.SettingsStore.Restart | libgphoto2/gphoto2-setting.c:107-171 | a later process finds the settings this one had in force |
| CameraLifetime.Camera.Begin | libgphoto2/gphoto2-camera.c:195-202 | a call from inside an operation answers BUSY and changes nothing |
| CameraLifetime.Camera.Look | libgphoto2/gphoto2-camera.c:681-810 | gp_camera_init neither asks whether the camera is busy nor whether it is initialised: it withdraws an exit request and puts a new library handle in place of the old one |
| CameraLifetime.Camera.LookInVain | libgphoto2/gphoto2-camera.c:763-771 | gp_camera_init where the port is not found takes a busy mark away: from an idle camera the mark wraps to 255 |
| CameraLifetime.Camera.Unused | libgphoto2/gphoto2-camera.c:45-54 | the end of an operation exits the driver if that was asked for, and exits and frees with the last reference; it returns if and only if an exit then ends |
| CameraLifetime.Camera.Exit | libgphoto2/gphoto2-camera.c:248-294 | deferred while the camera is in use; otherwise returns if and only if the loop over the pending timeouts ends, with every one stopped once and the driver closed |
| CameraLifetime.Camera.StopRounds | libgphoto2/gphoto2-camera.c:266-268 | after n rounds of the loop the state is that of n steps of the description |
| CameraLifetime.Camera.DoExit | libgphoto2/gphoto2-camera.c:265-290 | returns if and only if some number of rounds empties the list of timeouts |
| CameraLifetime.EndsIff | libgphoto2/gphoto2-camera.c:266-268 | the loop of gp_camera_exit ends if and only if no timeout is pending or a stop function is set |
| CameraLifetime.OnePendingForever | libgphoto2/gphoto2-camera.c:266-268 | one timeout and no stop function: after any number of rounds it is still pending |
| CameraLifetime.ExitNeverReturns | libgphoto2/gphoto2-camera.c:1900-1953 | a run: a frontend that can start timeouts but not stop them, an operation whose driver starts one, and then gp_camera_exit does not return |
| CameraLifetime.Camera.Unref | libgphoto2/gphoto2-camera.c:515-536 | frees at the last reference, but not inside an operation; an error, without effect, when there is none |
| CameraLifetime.Camera.Free | libgphoto2/gphoto2-camera.c:549-585 | a loaded driver exits first; without one pending timeouts stay pending |
| CameraLifetime.TimeoutOutlivesCamera | libgphoto2/gphoto2-camera.c:549-585 | a run: the driver starts a timeout and fails, the last reference frees the camera, and the timeout is still pending though a stop function is set |
| CameraLifetime.BusyForEver | libgphoto2/gphoto2-camera.c:763-771 | a run: after gp_camera_init on an unplugged camera every operation answers BUSY, an exit is put off and the last reference does not free it |
| CameraLifetime.Camera.StopTimeout | libgphoto2/gphoto2-camera.c:1967-1991 | stops the first pending timeout with this id; without a stop function nothing happens |
| CameraLifetime.Camera.RunCalls | libgphoto2/gphoto2-camera.c:195-202 | for every sequence of calls from inside an operation, nested gp_camera_init included, the camera stays busy, nothing is freed, and the state is the one the calls describe |
| CameraLifetime.AfterKeeps | libgphoto2/gphoto2-camera.c:45-202 | conservation over every such sequence and its end: every library opened is open, closed or lost to a nested gp_camera_init, and every timeout started is pending or was stopped once |
| CameraLifetime.RequestedIff | libgphoto2/gphoto2-camera.c:681-683 | a request to exit is pending after a sequence of calls if and only if no gp_camera_init comes behind the last one |
| CameraLifetime.ExitsIff | libgphoto2/gphoto2-camera.c:45-54 | for every sequence of nested calls the end of the operation exits the driver if and only if an exit call follows the last gp_camera_init, or the last reference is gone and the driver is loaded |
| CameraLifetime.InitWithdrawsExit | libgphoto2/gphoto2-camera.c:681-683 | the failing case: gp_camera_exit and then gp_camera_init from inside an operation lose the exit and a library handle |
| CameraLifetime.Camera.Operation | libgphoto2/gphoto2-camera.c:45-202 | a whole operation, over every outcome of its initialisation and every sequence of nested calls: BUSY without effect inside another one; otherwise the state is that of the calls with the exit, if there is one, at the end; it hangs if and only if that exit does, and leaves the busy mark at 255 if and only if the port was not found |
| ContextLifetime.StepKeepsConsistent | libgphoto2/gphoto2-context.c:61-142 | the count equals the references held, and once it is zero the context was freed or exactly one thread is about to free it |
| ContextLifetime.RunKeepsConsistent | libgphoto2/gphoto2-context.c:61-142 | the same over every run of any number of threads |
| ContextLifetime.FreedExactlyOnce | libgphoto2/gphoto2-context.c:61-142 | in every interleaving the context is freed at most once, never while a reference is held, and it has been freed once all references are dropped |
| ContextLifetime.UseFindsItAlive | libgphoto2/gphoto2-context.c:75-142 | a thread that holds a reference never meets a freed context |

## Left out

- SectorCaches.SectorCache.Commit: transport and memory allocation are assumed to succeed, so nothing is claimed about the cache after a failed flash command; the chip is assumed to become ready after each command.
- EepromDevice.Eeprom.Checksum: the frame's own addition is modelled as correct, so the driver's CHECKSUM_MISMATCH answer is never given in the model.
- SectorCaches.SectorCache.ReadMem: the file-backed dump mode of the driver is not modelled.
- PictureFrames.PictureFrame.ReadFileinfo: the stored file count is written but not consulted, as in the driver, whose firmware-specific readers return the table's capacity.
- AbfsStore.SortProperties: the C library's sort is modelled as an insertion sort; entries with equal addresses do not occur in a well-formed store.
- AbfsFormat.EntryRoundTrip: the byte of an AX206 entry that the driver leaves uninitialised is an arbitrary parameter.
- FrameParameters.OpenedIsValid: the chip is one of at most 4 MiB and of whole 64K blocks; for the 8 MiB chips in the driver's list its sector arrays are too small.
- LCD size detection, date and time setting, SCSI and USB transport.
- DataUnits.DecodeDc: `long` has 64 bits; for a DC category above 63 the source shifts by the width of its operand or more, which C leaves undefined, so such tables are excluded.
- DataUnits.DecodeUnit: tables with a DC category above 63 are excluded for the same reason.
- HuffmanTables.HuffmanTable.Build: segments that repeat a symbol or overfill the code space are excluded; such a segment can send the C code outside its tables or below zero in its count of bits, where it has no defined meaning.
- PictureFrames.PictureFrame.Session: what follows an upload that leaves an empty entry is not modelled; the order in which `qsort` leaves entries of equal address is not determined.
- Ax206Pictures.OpenScan: a file whose tables end behind its last byte is excluded, since the source reads on without looking; errors in the quantisation tables are not modelled.
- HuffmanTables.HuffmanTable.Next: symbols of a table are distinct and the code words fill no more than the code space, as in every table the compressor writes.
- Ax206Jpeg.Repack: the JPEG library's entropy coder is modelled by section F.1.2 of ITU-T T.81, and its choice of tables by the requirement that they have codes for everything in the picture, none of them hidden; the table segments it copies are two byte strings behind their lengths.
- Ax206Pictures.ReadBack: inverse transform, colour conversion and quantisation, which are in floating point, are not modelled; the coefficients are the picture.
- DeltaPictures.EncodeBlock: conversion between RGB and integer planes, which is in floating point, is not modelled; the two source functions for signed and unsigned components differ in their types only and are one method with a parameter.
- CanonCrc.GenCrc: the table of 1024 start values, of which 1016 are known, is a parameter; the error return -1 is None.
- AhdWindows.Interpolate: a row of pixels is one value, and the source's loops that treat both windows together are two calls, one per window.
- AhdStages.SamplesSurvive: memory allocation failure is not modelled; images less than three rows high, on which the source reads behind the image, are excluded.
- Bilinear.Interpolate: the two missing channels of a pixel are computed before either is written; neither is read for the other.
- FolderCaches.FolderCache.Lookup: the linked folder nodes are a map from paths to entries, and a path is a sequence of names rather than text with slashes; driver callbacks answer truthfully and only this interface changes the device.
- FolderCaches.FolderCache.PutFile: only files of type NORMAL; for other types the driver hides the error for a known name.
- FolderCaches.FolderCache.ListFiles: the intermediate states of the refill are not visible, so a driver that calls back into the cache while it lists is not covered.
- FileCaches.FileCache.SetFile: the byte count `lru_size`, which deletion does not maintain, reference counts of the file objects and modification times are not modelled.
- SettingsStores.SettingsStore.Set: entries of 256 characters or more, and a 513th entry, overflow in the source and are excluded; file access succeeds, and user-supplied get and set functions are not modelled.
- SettingsStores.SettingsStore.Load: settings files with a line on which `strtok` finds no id or key are excluded.
- CameraLifetime.Camera.Look: autodetection of the camera model is not modelled; a driver's init function that calls back is covered inside an operation, not when the frontend itself calls gp_camera_init; a driver's exit function does not call back.
- CameraLifetime.Camera.RunCalls: a nested gp_camera_init that does not find its port is not among the calls, since it takes away the busy mark of the operation around it (`LookInVain`); what the rest of that operation then does is not modelled.
- ContextLifetime.StepKeepsConsistent: the count is unbounded; 2^32 references are not considered.
- The remaining camera drivers, widgets, abilities and port lists, the port library, logging and translation.
