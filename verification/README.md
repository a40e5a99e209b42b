# A model of ImageTool

ImageTool (`BaseTools/ImageTool`) converts executable images. It reads an ELF, PE or UE file into one intermediate
representation: a header, contiguous segments with their bytes, and a list of relocations. It checks, relocates and
normalises that representation and writes it out as PE or UE. The repository's README rests the validation of an output
file on one claim: the representation is semi-canonical, so it suffices to read the output back and compare. This project
proves that claim, for every image, and the algebra under it.

## Structure

| modules | contents |
|---|---|
| `Bytes`, `DynamicBuffer` | little-endian words and alignment; the growable buffer as a class, and whole runs of it |
| `Image`, `ImageRules`, `Relocation`, `Truncation`, `StripPrefix`, `Meaning` | the representation as a value, its checker, and what relocating, truncating and stripping do to it |
| `ToolImages` | the representation as an object whose segment buffers and lists are updated in place |
| `UeFixups`, `UeChains`, `UeScan`, `UeRoundTrip`, `UeScanSound` | the UE relocation encoding as a plan, its in-place chains, the decoder, and the round trip |
| `UeBody`, `UeFormat`, `UeFile`, `UeLoad`, `UeEndToEnd`, `UeValidate` | whole UE files: layout, fields, loading, and what scanning an emitted file gives |
| `UeEmitRelocs`, `UeEmit`, `RelocRecords`, `UeScanner`, `UeAnyFile` | the UE emitter and decoder as the loops and in-place updates they are, and what scanning guarantees for arbitrary files |
| `UeWire`, `UeGrammar`, `UeRelocGrammar` | the UE format in numbers: the bytes of every emitted file, and which files and relocation tables decode, and to what |
| `Pipeline`, `Tool`, `Reemit` | the tool from the intermediate representation to the validated file, and emitting a second time |
| `PeRelocs`, `PeTables`, `PeDirectory`, `PeLayout` | the PE relocation table in both directions, the other tables, which directories decode, and the emission of XIP files, which are their own loaded image |
| `PeSegments`, `PeReadBack`, `PeExamples` | what reading an XIP file back gives, exactly when that is what was emitted, and images for which it is not |
| `ElfScan` | parsing an ELF section table, and the counting and the filling pass over it |

Specification functions work on values. Code that changes things step by step is a method proved against them. `Loaded`
in `Meaning` is what a loader puts into memory when it places the first segment at a given address; two images have the
`SameMeaning` if layout, entry point and, for every such address, all loaded bytes agree. Failure results of the source
are `None` or `false`. `Oversized` bounds the only failure that is not decided by the image: the buffer refuses to grow
beyond roughly 2 GiB.

## Where the code falls short of its claim

- Validation of an emitted UE file succeeds exactly if the subsystem is one of 10 to 17 and the symbols path is not empty
  (`EmittedValidates`). The emitter keeps the low eight bits of the subsystem minus ten, so 266 passes its checks and
  comes back as 10 (`WideSubsystemFails`). It writes a debug table for an empty path, which the loader reports as missing
  (`EmptyPathFails`); the ELF reader produces an empty path when none is given (`BaseTools/ImageTool/ElfScan.c:713-717`).
- A second emission drops the recorded prefix size and an empty path, so a file whose debug table holds either is not
  reproduced, and a file whose relocations were stripped cannot be emitted again at all (`EmitAgain`, `NotReproduced`).
- A segment without a name, or with one the tool uses for sections of its own, does not survive a PE round trip
  (`XipSegments`): its section is dropped, or comes back with an empty name that has no counterpart (`ImproperNames`).
- A fixed-address XIP image in which every section holds code is refused, although it fits (`EmitXip`,
  `FixedCodeRefused`); one that is fixed at address 0 comes back as not fixed (`XipFixed`, `FixedAtZeroLost`).
- With a section alignment of 1 or 2, relocation and debug directories may start where the loader refuses them
  (`XipComesBack`, `MisalignedRefused`).
- The PE resource table records the address of its data before its section has one (`ResourcesMisplaced`).
- A PE relocation table of 1 GiB or more is emitted but not decoded (`PeRoundTrip`, `WideTableFails`).
- A UE fixup without chain metadata is checked against the image, not against a segment (`ApplyRelocation`), so a decoded
  relocation may cross a segment boundary; only the checker that follows rejects it (`ScannedChecked`, `CrossingScans`).
- The ELF counting pass reserves space for GOT entries the filling pass skips (`PassesAgree`).

Values the source only asserts are failures here: a subsystem whose field exceeds seven, and a segment without a name when
a debug table is written.

## Model

| member | source | states |
|---|---|---|
| `Tool.Emit` | BaseTools/ImageTool/ImageToolEmit.c:94-206 | The whole of ToolImageEmit for a UE output that is not XIP, on an image changed in place: a returned file scans to an image that means what the input means (or, with relocations stripped, holds the input's bytes placed at the chosen base) and reports its machine, alignment, names, path and relocations, the chosen base and subsystem, and a fixed address exactly if the input or the options say so; no file is returned only if the image cannot be expressed, the file outgrows the buffer, the subsystem is outside 10..17 or the symbols path is empty |
| `Tool.ValidateOutput` | BaseTools/ImageTool/ImageToolEmit.c:47-91 | Accepts exactly the files that scan, with no more relocations than the decoder's buffer holds, to a checked image that compares equal to the emitted one |
| `Tool.Prepare` | BaseTools/ImageTool/ImageToolEmit.c:143-168 | Sort, check, relocate and mark as fixed, in the order of the source; the result is the specified image for the order the sort chose |
| `Tool.Place` | BaseTools/ImageTool/ImageToolEmit.c:157-168 | The optional relocation and the fixed-address flag, with the exact failure case |
| `Tool.SortRelocs` | BaseTools/ImageTool/Image.c:558-572 | A permutation of the relocations sorted by target |
| `Tool.CompareImages` | BaseTools/ImageTool/Image.c:575-781 | Decides the specified comparison of two images, which `CompareIs` states on the fields |
| `Tool.CompareNames` | BaseTools/ImageTool/Image.c:625-658 | Decides whether two names agree as far as both go, a scanned name needing a source name |
| `Tool.EmitUe` | BaseTools/ImageTool/UeEmit.c:1069-1118 | Leaves in the image and returns as the file exactly what the specification gives; fails only if that fails or the file is too large |
| `Tool.PrepareUe` | BaseTools/ImageTool/UeEmit.c:1083-1099 | Sizes, prefix and relocations are changed in place to the specified image; fails exactly when relocations are stripped already |
| `Tool.ComputeSizes` | BaseTools/ImageTool/UeEmit.c:1083-1084 | The two passes over the unpadded sizes together compute the specified sizes |
| `Pipeline.EmitImageCorrect` | BaseTools/ImageTool/ImageToolEmit.c:94-206 | For every image and every combination of options: the emitted file scans, the scanned image passes the checker, it compares equal exactly when the subsystem is in 10..17 and the symbols path is not empty, it means what the input means, and every field of it is the input's or the chosen one |
| `Pipeline.EmitImageAnyOrder` | BaseTools/ImageTool/ImageToolEmit.c:148-155 | The result does not depend on the order in which the input lists its relocations, nor on how the sort treats equal targets |
| `Pipeline.CanonicalOrder` | BaseTools/ImageTool/Image.c:533-572 | At most one ordering of a set of relocations passes the checker |
| `Pipeline.CompareMeaning` | BaseTools/ImageTool/Image.c:575-781 | Checked images that compare equal mean the same, which is what output validation establishes |
| `Pipeline.EmitUeMeaning` | BaseTools/ImageTool/UeEmit.c:1069-1118 | Scanning an emitted file gives an image with the layout, the entry point and, wherever it is placed, the bytes of the original; with relocations stripped, the original's bytes at its base |
| `Pipeline.EmitUeSucceeds` | BaseTools/ImageTool/UeEmit.c:787-835 | Emission succeeds if and only if relocations are not stripped already, the format's limits hold, in numbers, and, unless they are dropped or the image is fixed or based elsewhere than 0, every 64-bit word less the prefix size fits 48 bits |
| `Pipeline.EmitImageSucceeds` | BaseTools/ImageTool/ImageToolEmit.c:94-206 | For every image and every combination of options, exactly when there is a file: conditions on the input's own fields, segments and words |
| `Pipeline.ExpressibleFits` | BaseTools/ImageTool/UeEmit.c:805-855 | The emitter's checks amount to at most 32 segments, an alignment from 4 KiB to 128 MiB, seven machines, readable or executable segments, no HII data and, with a path, names and a prefix of at most three alignment units |
| `Pipeline.EmitUeReports` | BaseTools/ImageTool/UeEmit.c:1069-1118 | What scanning an emitted file reports, field by field, in terms of the original image |
| `Pipeline.PlanSucceeds` | BaseTools/ImageTool/UeEmit.c:475-484 | The relocations can be encoded if and only if no chained 64-bit value needs more than 48 bits |
| `Pipeline.PreparedMeaning` | BaseTools/ImageTool/UeEmit.c:1083-1099 | Preparation keeps the meaning and the base address of the image |
| `Pipeline.PreparedEmittable` | BaseTools/ImageTool/UeEmit.c:1083-1101 | Preparation succeeds exactly if relocations are not stripped, and then meets everything the file writer relies on |
| `Pipeline.EmitImageFew` | BaseTools/ImageTool/UeScan.c:119-124 | An emitted file has at least four bytes for every relocation it scans to, so the buffer that collects them never limits output validation |
| `Reemit.EmitAgain` | README.md:140-144 | Scanning any emitted file and emitting it again succeeds if and only if its relocations were not stripped, and reproduces it byte for byte if and only if, moreover, there is no debug table or it holds a path and records no stripped prefix |
| `Reemit.NotReproduced` | BaseTools/ImageTool/UeEmit.c:593-689 | Two concrete images, one behind an empty prefix and one with an empty path, whose files come out different the second time |
| `Reemit.PreparedSizes` | BaseTools/ImageTool/UeEmit.c:195-236 | The sizes a prepared image carries are those computed afresh from its own bytes and relocations |
| `Meaning.RelocateMeaning` | BaseTools/ImageTool/Image.c:432-531 | Relocating an image does not change what it means: wherever its first segment is placed, the loaded bytes are the same |
| `Meaning.StripPreserves` | BaseTools/ImageTool/UeEmit.c:740-783 | Stripping the empty prefix does not change what the image means |
| `Meaning.ShiftAll` | BaseTools/ImageTool/UeEmit.c:770-778 | Applying relocations and shifting all addresses commute |
| `ToolImages.ToolImage.Relocate` | BaseTools/ImageTool/Image.c:432-531 | Relocates the buffers in place to the specified image; on failure nothing changes; the failure cases are exact |
| `ToolImages.ToolImage.RelocateWords` | BaseTools/ImageTool/Image.c:473-526 | The loop over the relocations acts on the buffers as the specified action |
| `ToolImages.ToolImage.WriteUnaligned` | BaseTools/ImageTool/Image.c:489-490 | A word written into one segment's buffer changes that word and no other byte of any segment |
| `Relocation.RelocateSucceeds` | BaseTools/ImageTool/Image.c:449-471 | Exactly when relocation of a checked image succeeds |
| `Relocation.RelocateChecked` | BaseTools/ImageTool/Image.c:432-531 | A relocated image passes the checker |
| `Relocation.RelocateCompose` | BaseTools/ImageTool/Image.c:432-531 | Moving to one base and then to another is moving to the other |
| `Relocation.RelocateBack` | BaseTools/ImageTool/Image.c:432-531 | Moving away and back restores every byte |
| `Relocation.RelocateAllFrame` | BaseTools/ImageTool/Image.c:473-526 | No byte outside the relocated words changes |
| `Relocation.RelocateAllWord` | BaseTools/ImageTool/Image.c:483-505 | Every relocated word changes by the adjustment in its own width |
| `Relocation.RelocateAnyOrder` | BaseTools/ImageTool/Image.c:473-526 | The result does not depend on the order in which relocations are applied |
| `ToolImages.ToolImage.Check` | BaseTools/ImageTool/Image.c:321-357 | Accepts exactly the images that satisfy the specified well-formedness, which `CheckedIs` states on addresses |
| `ImageRules.CheckedIs` | BaseTools/ImageTool/Image.c:10-357 | The checker accepts an image if and only if its segments cover an aligned range of addresses without gap or overlap, no segment is writable code, the entry point is in the range, the range does not wrap at the base, relocations are sorted by target, share no byte and each lie in one segment, and the path is at most 255 bytes; the bound on their number never decides |
| `ImageRules.Tiling` | BaseTools/ImageTool/Image.c:53-94 | Each segment starting where the previous one ends is the same as no two segments overlapping, in order, and every address of the image lying in one |
| `ToolImages.ToolImage.CheckSegments` | BaseTools/ImageTool/Image.c:53-94 | Accepts exactly segments that tile the image with aligned sizes and no writable code, and returns the image size |
| `ToolImages.ToolImage.CheckRelocs` | BaseTools/ImageTool/Image.c:250-304 | Accepts exactly relocation lists that are sorted, disjoint, inside segments, of known types and not stripped |
| `ToolImages.ToolImage.CheckReloc` | BaseTools/ImageTool/Image.c:189-246 | Accepts exactly relocations whose word lies inside one segment |
| `ToolImages.ToolImage.GetSegmentByAddress` | BaseTools/ImageTool/Image.c:128-146 | The first segment that holds an address, with offset and remaining size |
| `Image.Locate` | BaseTools/ImageTool/Image.c:128-146 | The first segment that holds an address, or none |
| `ToolImages.ToolImage.InitUnpaddedSize` | BaseTools/ImageTool/Image.c:360-377 | Every segment's unpadded size becomes its size without trailing zeros; nothing else changes |
| `ToolImages.TrimSegment` | BaseTools/ImageTool/Image.c:370-375 | The size of a buffer without its trailing zeros |
| `ToolImages.ToolImage.PadChainedRelocs` | BaseTools/ImageTool/UeEmit.c:195-236 | One shared walk over relocations and segments raises each unpadded size to the end of the last relocation in the segment |
| `ToolImages.ToolImage.WalkSegment` | BaseTools/ImageTool/UeEmit.c:213-225 | The inner loop consumes exactly the relocations inside the segment and finds where the last one ends |
| `ToolImages.PassesTruncate` | BaseTools/ImageTool/UeEmit.c:1083-1084 | The two passes together equal the specified sizes |
| `Truncation.TrimmedUnique` | BaseTools/ImageTool/Image.c:370-375 | Being followed by zeros and preceded by a non-zero byte determines the size |
| `Truncation.TruncateTruncates` | BaseTools/ImageTool/UeEmit.c:195-236 | What the sizes leave out is zero and holds no relocation target |
| `Truncation.TruncateLeast` | BaseTools/ImageTool/UeEmit.c:195-236 | No smaller size leaves out only zeros and no relocation target |
| `Truncation.TruncatedRelocates` | BaseTools/ImageTool/UeEmit.c:1083-1095 | That still holds after any relocation |
| `Truncation.UnpaddedRelocates` | BaseTools/ImageTool/UeEmit.c:1083-1095 | Computing the sizes after a relocation gives the same sizes |
| `ToolImages.ToolImage.StripEmptyPrefix` | BaseTools/ImageTool/UeEmit.c:740-783 | Moves the first segment to address 0 in place, exactly as specified, and reports the prefix size |
| `ToolImages.ToolImage.StripRelocs` | BaseTools/ImageTool/Image.c:784-797 | Drops the relocations and marks them stripped; nothing else changes |
| `StripPrefix.StripSucceeds` | BaseTools/ImageTool/UeEmit.c:751-768 | On checked images it fails exactly when relocations are stripped, also when the intermediate base wraps |
| `StripPrefix.StripValue` | BaseTools/ImageTool/UeEmit.c:740-783 | The result in closed form: all words and addresses move down by the prefix, the base address stays |
| `StripPrefix.StripChecked` | BaseTools/ImageTool/UeEmit.c:740-783 | The result passes the checker and starts at address 0 |
| `StripPrefix.StripMeaning` | BaseTools/ImageTool/UeEmit.c:740-783 | Every relocated word keeps its distance from the base and every segment, modulo its width |
| `StripPrefix.StripFrame` | BaseTools/ImageTool/UeEmit.c:740-783 | Every byte outside relocated words is kept |
| `StripPrefix.StripTruncated` | BaseTools/ImageTool/UeEmit.c:1083-1095 | Sizes computed before the strip stay right after it |
| `UeEmit.EmitUeFile` | BaseTools/ImageTool/UeEmit.c:787-910 | The buffer ends up holding exactly the specified file; failure means the image cannot be expressed or the file is too large |
| `UeEmit.CheckHeader` | BaseTools/ImageTool/UeEmit.c:805-835 | Decides the header restrictions of the format |
| `UeEmit.AlignmentToExponent` | BaseTools/ImageTool/UeEmit.c:12-36 | The base-two logarithm of the alignment |
| `UeEmit.EmitSegmentHeaders` | BaseTools/ImageTool/UeEmit.c:40-96 | Appends the segment table, or fails exactly for permissions the format cannot express or for size |
| `UeEmit.EmitSegments` | BaseTools/ImageTool/UeEmit.c:169-191 | Appends the stored bytes of all segments and pads to the load table alignment |
| `UeEmitRelocs.GetFileOffset` | BaseTools/ImageTool/UeEmit.c:240-289 | The mapping read off the headers in the buffer: the offset and remaining stored size of an address |
| `UeEmitRelocs.EmitRelocTable` | BaseTools/ImageTool/UeEmit.c:293-589 | Packs the chains into the segments in place, appends the padded table and fills in its load table entry |
| `UeEmitRelocs.EmitFixups` | BaseTools/ImageTool/UeEmit.c:351-568 | The loop with its Prev variables and chain flag leaves the buffer as the plan of all relocations says |
| `UeEmitRelocs.EmitFixup` | BaseTools/ImageTool/UeEmit.c:368-565 | One iteration extends the plan by one fixup; failure means the value does not fit or the buffer is full |
| `UeEmitRelocs.ChainFixup` | BaseTools/ImageTool/UeEmit.c:427-523 | Continues, breaks or starts a chain exactly as planned, with the writes to the previous and the current word |
| `UeEmitRelocs.DescribeFixup` | BaseTools/ImageTool/UeEmit.c:525-565 | Patches the previous head or starts an aligned root, then appends the new head |
| `UeEmit.EmitDebugTable` | BaseTools/ImageTool/UeEmit.c:593-689 | Appends the debug table and fills in its load table entry, or fails exactly as specified |
| `UeEmit.EmitLoadTables` | BaseTools/ImageTool/UeEmit.c:693-736 | Both tables and their entries, each only if required |
| `UeChains.ReadAfter` | BaseTools/ImageTool/UeEmit.c:421-423 | No in-place write so far changes a word that is read later |
| `UeChains.ChainedSnoc` | BaseTools/ImageTool/UeEmit.c:431-523 | The writes for a new fixup turn the packing of the fixups so far into the packing of all of them |
| `UeChains.UndoFixup` | BaseTools/ImageTool/UeScan.c:68-103 | Restoring one packed word recovers its value and metadata and undoes exactly that write |
| `UeChains.ChainedFrame` | BaseTools/ImageTool/UeEmit.c:444-515 | Packing changes no byte outside relocated words |
| `UeBody.BodyRead` | BaseTools/ImageTool/UeEmit.c:240-289 | The file holds each stored word at the offset the mapping gives |
| `UeBody.BodyWrite` | BaseTools/ImageTool/UeEmit.c:444-515 | Writing the file at the mapped offset is writing the segment |
| `UeBody.OffsetMonotone` | BaseTools/ImageTool/UeEmit.c:240-289 | The file keeps the order of stored words |
| `UeBody.RelocsInBody` | BaseTools/ImageTool/UeEmit.c:195-236 | Every relocated word is stored, and n of them take at least 4n bytes |
| `UeBody.OffsetInjective` | BaseTools/ImageTool/UeEmit.c:240-289 | No two addresses share a byte of the file |
| `UeRoundTrip.RelocsRoundTrip` | BaseTools/ImageTool/UeScan.c:223-362 | Decoding the emitted table on the packed segments yields the original relocations, in order, and the original bytes, for either chaining mode and every mix of types, breaks and fallbacks |
| `UeRoundTrip.PaddingIsNoRoot` | BaseTools/ImageTool/UeScan.c:261-266 | Padding at the end of the table is too short to be read as a root |
| `UeRoundTrip.PaddedTableBound` | BaseTools/ImageTool/UeEmit.c:525-569 | A padded table costs at most eight bytes per relocation |
| `UeWire.WireHeader` | BaseTools/ImageTool/UeEmit.c:831-869 | The 16 header bytes of every emitted file, bit by bit, from the original image; fixups are marked as chained exactly if the base address is 0 and not fixed |
| `UeWire.WireSegments` | BaseTools/ImageTool/UeEmit.c:40-96 | Every entry of the segment table: pages, protection and stored size |
| `UeWire.WireTables` | BaseTools/ImageTool/UeEmit.c:593-736 | Which load tables follow and how large they are; the file ends with the debug table, whose bytes are given one by one |
| `UeWire.PlanRules` | BaseTools/ImageTool/UeEmit.c:368-523 | For every relocation, its type and whether it is a root, a further head or part of a chain, from the distance to its predecessor and its value |
| `UeWire.WordRules` | BaseTools/ImageTool/UeEmit.c:427-523 | Every relocated word as it is written, with the distance and type of its successor or the end mark |
| `UeGrammar.Parses` | MdePkg/Library/BaseUeImageLib/UeImageLib.c:200-356 | The loader accepts a file if and only if it is well-formed, in terms of its bytes, and then every field is the one at its place |
| `UeGrammar.SegmentsScan` | BaseTools/ImageTool/UeScan.c:365-485 | For any file: when segments and path load, and each segment's address, bytes and permissions |
| `UeGrammar.DebugLoads` | MdePkg/Library/BaseUeImageLib/UeImageLib.c:1195-1271 | A debug table is usable if and only if it has room for the path, its terminator and all names; an empty path counts as none |
| `UeGrammar.Scans` | BaseTools/ImageTool/UefiImageScan.c:190-290 | Exactly which files scan |
| `UeGrammar.ScanFields` | BaseTools/ImageTool/UefiImageScan.c:190-290 | The scanned image carries the fields of header and debug table as they are and no HII data; without a relocation table its segments are the loaded ones |
| `UeRelocGrammar.TableDecodes` | BaseTools/ImageTool/UeScan.c:223-362 | A relocation table decodes to a result if and only if it is a sequence of roots whose heads end with the mark, and running them from address 0 gives that result |
| `UeRelocGrammar.PlainFixup` | BaseTools/ImageTool/UeScan.c:147-220 | A fixup without metadata: exactly which types and targets are accepted, and the relocation it stands for |
| `UeRelocGrammar.ChainFixup` | BaseTools/ImageTool/UeScan.c:47-124 | A fixup of a chain: exactly when it is accepted, the value it restores, and distance and type of the next one |
| `UeRelocGrammar.ChainRuns` | BaseTools/ImageTool/UeScan.c:18-143 | A chain goes on at the distance and with the type its words say, until one carries the end mark |
| `UeScanner.ScanUeFile` | BaseTools/ImageTool/UefiImageScan.c:190-290 | Builds the image of a UE file with buffers of its own, exactly as specified; fails exactly if the file does not scan or has more relocations than the decoder's buffer holds |
| `UeScanner.GetRelocInfo` | BaseTools/ImageTool/UeScan.c:223-362 | Walks roots and heads, restores words in place and collects the relocations in a buffer, exactly as specified, for every table content; fails exactly if the table does not decode or the buffer is full |
| `UeScanner.ProcessRoot` | BaseTools/ImageTool/UeScan.c:266-347 | One root: what remains of the table is decoded from the new state, or the table is refused |
| `RelocRecords.Push` | BaseTools/ImageTool/UeScan.c:119-124 | One record more; the buffer takes exactly 2^29 - 512 of them |
| `RelocRecords.LargestCount` | BaseTools/ImageTool/UeScan.c:119-124 | That number, written out |
| `RelocRecords.Dump` | BaseTools/ImageTool/UeScan.c:349-359 | The records read back as the list of relocations that was collected |
| `UeScanner.ProcessHeads` | BaseTools/ImageTool/UeScan.c:284-340 | The heads of one root, including the end-of-table check |
| `UeScanner.ProcessRelocChain` | BaseTools/ImageTool/UeScan.c:18-143 | Walks one chain, for any words it finds; it terminates because the target grows |
| `UeScanner.ProcessFixup` | BaseTools/ImageTool/UeScan.c:47-124 | One step of a chain: bounds, value, metadata |
| `UeScanner.ApplyRelocation` | BaseTools/ImageTool/UeScan.c:147-220 | A fixup without metadata, with the image-bounds check of the source |
| `UeScanner.GetSegmentInfo` | BaseTools/ImageTool/UeScan.c:365-485 | Rebuilds every segment from size, permissions and stored bytes, each in a buffer of its own |
| `UeScanner.LoadSegment` | MdePkg/Library/BaseUeImageLib/UeImageLib.c:359-429 | Stored bytes followed by zeros |
| `UeScanner.GetSegmentNames` | MdePkg/Library/BaseUeImageLib/UeImageLib.c:1252-1271 | The name fields of the debug table, if there is one and it is large enough |
| `UeScanSound.ScanRelocsSound` | BaseTools/ImageTool/UeScan.c:119-142 | Whatever the table, an accepted list is strictly increasing, non-overlapping and inside the image, and no byte outside its words has changed |
| `UeAnyFile.ScannedChecked` | BaseTools/ImageTool/UefiImageScan.c:190-290 | Whatever the file, a scanned image has tiled segments, an aligned base, an entry point inside it and sorted, disjoint relocations inside it; the checker accepts it if and only if it does not wrap the address space and no relocated word crosses a segment boundary |
| `UeAnyFile.CrossingScans` | BaseTools/ImageTool/UeScan.c:147-220 | A concrete file that scans although its relocation crosses a segment boundary, and whose image the checker rejects |
| `UeFormat.SegmentTableRoundTrip` | BaseTools/ImageTool/UeScan.c:408-476 | Size, permissions and stored size of every segment come back from the table |
| `UeFormat.ImageInfoFields` | BaseTools/ImageTool/UeEmit.c:858-869 | Every field of the packed image info comes back |
| `UeFormat.LoadTableFields` | BaseTools/ImageTool/UeEmit.c:575-578 | Identifier and size of a load table come back from its entry |
| `UeEndToEnd.BodyLoads` | BaseTools/ImageTool/UeScan.c:408-476 | The decoder's running sums place and fill every segment as it was emitted |
| `UeEndToEnd.ParseEmitted` | MdePkg/Library/BaseUeImageLib/UeImageLib.c:200-356 | The loader accepts an emitted file and reads every field of it back |
| `UeValidate.CompareIs` | BaseTools/ImageTool/Image.c:575-781 | Two images compare equal if and only if they are the same but for stored sizes and names, and of two names one is a prefix of the other |
| `UeValidate.NamesPrefix` | BaseTools/ImageTool/Image.c:625-658 | Names agree if and only if the first is missing, or both are there and one is a prefix of the other |
| `UeValidate.EmittedScans` | BaseTools/ImageTool/UefiImageScan.c:190-290 | Scanning an emitted file gives back the emitted image but for the subsystem's upper bits, cut-off names and an empty symbols path |
| `UeValidate.RescannedChecked` | BaseTools/ImageTool/Image.c:321-357 | The scanned image passes the checker |
| `UeValidate.RescannedCompares` | BaseTools/ImageTool/Image.c:575-781 | Exactly when the scanned image compares equal to the emitted one |
| `UeValidate.EmittedValidates` | BaseTools/ImageTool/ImageToolEmit.c:47-91 | Output validation of an emitted file succeeds if and only if the subsystem is in 10..17 and the symbols path is not empty |
| `UeValidate.EmittedFew` | BaseTools/ImageTool/UeEmit.c:787-910 | A file has at least four bytes for every relocation of its image |
| `UeValidate.WideSubsystemFails` | BaseTools/ImageTool/UeEmit.c:840-851 | A concrete image with subsystem 266 is emitted, scans as 10 and fails its validation |
| `UeValidate.EmptyPathFails` | MdePkg/Library/BaseUeImageLib/UeImageLib.c:1195-1224 | A concrete image with an empty symbols path is emitted, scans without one and fails its validation |
| `DynamicBuffer.Run` | BaseTools/ImageTool/DynamicBuffer.c:18-161 | Any run of operations acts as on a byte sequence: an append returns the old length, a failure changes nothing and means the size limit |
| `DynamicBuffer.Buffer.constructor` | BaseTools/ImageTool/DynamicBuffer.c:18-23 | An empty buffer |
| `DynamicBuffer.Buffer.Expand` | BaseTools/ImageTool/DynamicBuffer.c:27-86 | Grows to exactly the specified capacity, in steps of 4 KiB, and keeps the contents; reports failure, with nothing changed, exactly if that capacity overflows |
| `DynamicBuffer.Buffer.Read` | BaseTools/ImageTool/DynamicBuffer.c:89-100 | The bytes at an offset |
| `DynamicBuffer.Buffer.Write` | BaseTools/ImageTool/DynamicBuffer.c:103-114 | Overwrites bytes inside the contents and nothing else |
| `DynamicBuffer.Buffer.Append` | BaseTools/ImageTool/DynamicBuffer.c:117-131 | Appends data and returns its offset, or fails with nothing changed |
| `DynamicBuffer.Buffer.AppendReserve` | BaseTools/ImageTool/DynamicBuffer.c:134-147 | Appends zeros and returns their offset, or fails with nothing changed |
| `DynamicBuffer.Buffer.AppendReserveAlign` | BaseTools/ImageTool/DynamicBuffer.c:150-161 | Appends the zeros that align the length, or fails with nothing changed |
| `DynamicBuffer.GrownIs` | BaseTools/ImageTool/DynamicBuffer.c:27-86 | The capacity grows only if it must, by the size rounded up to 4 KiB, exactly as long as it fits 32 bits |
| `DynamicBuffer.Undersized` | BaseTools/ImageTool/DynamicBuffer.c:42-70 | Contents of up to 2 GiB - 2 KiB are never refused |
| `DynamicBuffer.Growth` | BaseTools/ImageTool/DynamicBuffer.c:42-70 | The capacity stays a multiple of 4 KiB and below twice the contents plus 4 KiB; it overflows only beyond the size limit |
| `PeRelocs.EmitPeRelocTable` | BaseTools/ImageTool/PeEmit.c:149-246 | Appends exactly the specified table, wherever it starts, headers of finished blocks written back, or fails for size only |
| `PeRelocs.EmitEntry` | BaseTools/ImageTool/PeEmit.c:181-224 | One relocation: a new block if the page changes, then the entry |
| `PeRelocs.TableAligned` | BaseTools/ImageTool/PeEmit.c:184-191 | A table that starts at a multiple of four does not depend on where |
| `PeRelocs.GetRelocInfo` | BaseTools/ImageTool/PeScan.c:16-161 | Decodes any directory the loader lets through, exactly as specified; every store lies in the array allocated from the directory size |
| `PeRelocs.ReadEntries` | BaseTools/ImageTool/PeScan.c:127-145 | The entries of one block, stored in an array with room for them |
| `PeRelocs.ScanBlocks` | BaseTools/ImageTool/PeScan.c:89-151 | The walk stays in the directory, never passes its aligned end and finds at most one relocation per two bytes |
| `PeRelocs.ScanPe` | BaseTools/ImageTool/PeScan.c:16-161 | At most half as many relocations as the directory has bytes |
| `PeDirectory.DirectoryDecodes` | BaseTools/ImageTool/PeScan.c:16-161 | A directory decodes to a list if and only if it is a sequence of aligned blocks of known entries that stand for that list and end where it ends, and the list fits 32 bits |
| `PeDirectory.PathFound` | MdePkg/Library/BasePeCoffLib2/PeCoffDebug.c:27-236 | A path is found if and only if the first codeview entry of a well-formed directory points to an aligned NB10, RSDS or MTOC record that ends with the path and a zero, and none if there is no such entry or its record is of another kind |
| `PeRelocs.PeRoundTrip` | BaseTools/ImageTool/PeScan.c:67-158 | Every non-empty list decodes from its table to itself, in order, and the walk ends at the directory's end, if and only if the decoded list fits 32 bits |
| `PeRelocs.WideTableFails` | BaseTools/ImageTool/PeScan.c:44-58 | A concrete checked image, with a relocation in every word of 2 GiB, whose table is not decoded |
| `PeRelocs.PaddingSkipped` | BaseTools/ImageTool/PeScan.c:131-133 | Padding is read as an entry that stands for nothing |
| `PeRelocs.BlocksAscend` | BaseTools/ImageTool/PeEmit.c:179-214 | The blocks of a sorted list, read back from the table, are on strictly increasing pages, all multiples of 4 KiB |
| `PeRelocs.TableSizeBounds` | BaseTools/ImageTool/PeEmit.c:169-246 | A table costs at most twelve bytes per relocation |
| `PeLayout.EmitXip` | BaseTools/ImageTool/PeEmit.c:549-650 | An XIP file is its own loaded image: every section's file offset is its virtual address, SizeOfImage is the file size, segments and tables lie at their addresses, the directories say where, and a fixed address is recorded, which is the image's base address unless a 32-bit header cuts it; no file is produced only if the headers do not fit before the first segment, a fixed address finds no section without code, or the file is too large, and the first two always fail |
| `PeLayout.FitsIs` | BaseTools/ImageTool/PeEmit.c:569-633 | The headers fit if and only if 328 bytes (312 for 32-bit files) and 40 for every section do |
| `PeLayout.ReserveHeaders` | BaseTools/ImageTool/PeEmit.c:569-633 | The headers take their aligned size, or up to the first segment if that is further |
| `PeLayout.EmitSection` | BaseTools/ImageTool/PeEmit.c:367-448 | A segment's section in XIP mode, with its bytes and header fields |
| `PeLayout.FinalizeExtra` | BaseTools/ImageTool/PeEmit.c:44-78 | The section header and padding of an appended section in XIP mode |
| `PeLayout.EmitSegments` | BaseTools/ImageTool/PeEmit.c:453-487 | After every segment, SizeOfImage is the number of bytes emitted and all sections so far are in place |
| `PeLayout.EmitHiiTable` | BaseTools/ImageTool/PeEmit.c:83-144 | The resource section lies where the image ends, and keeps the layout |
| `PeLayout.EmitRelocSection` | BaseTools/ImageTool/PeEmit.c:149-266 | The relocation section lies where the image ends, and keeps the layout |
| `PeLayout.EmitDebugTable` | BaseTools/ImageTool/PeEmit.c:271-335 | The debug section lies where the image ends, with a directory entry that names its address and offset, and keeps the layout |
| `PeLayout.RecordBase` | BaseTools/ImageTool/PeEmit.c:521-536 | The base is recorded in the first section without code and nowhere else; fails exactly if there is none |
| `PeLayout.StagedSnoc` | BaseTools/ImageTool/PeEmit.c:453-539 | Appending a section keeps the file its own image, with everything emitted before at its address |
| `PeSegments.XipSegments` | BaseTools/ImageTool/PeScan.c:164-236 | The segments scanned from an XIP file itself compare equal to the emitted ones if and only if every segment has a name that is none of .reloc, .rsrc and .debug |
| `PeSegments.GetSegmentInfo` | BaseTools/ImageTool/PeScan.c:194-232 | Every section that is kept becomes a segment with a buffer of its own; the others are dropped |
| `PeReadBack.XipComesBack` | BaseTools/ImageTool/ImageToolEmit.c:47-91 | Segments, relocations, fixed-address flag and symbols path of an XIP file read back as what was emitted, if and only if the names are proper, the tables aligned, the relocations decodable in 32 bits and a fixed address is not 0 |
| `PeReadBack.XipHeaders` | BaseTools/ImageTool/PeEmit.c:367-448 | How many sections an XIP file has, and name, place, size and characteristics of every segment's section |
| `PeReadBack.XipTableHeaders` | BaseTools/ImageTool/PeEmit.c:44-335 | Name, place, size and characteristics of the resource, relocation and debug sections, and the three directories, in numbers |
| `PeReadBack.HeaderFields` | BaseTools/ImageTool/PeEmit.c:271-335 | Every field of the emitted debug header |
| `PeTables.HiiBytes` | BaseTools/ImageTool/PeEmit.c:83-144 | Every field of the emitted resource header |
| `PeReadBack.SegmentsMade` | BaseTools/ImageTool/PeScan.c:164-236 | For any section table: the segments are made, in order, from the sections that are neither discardable nor named .reloc, .rsrc or .debug |
| `PeReadBack.FixedScans` | MdePkg/Library/BaseUefiImageLib/PeSupport.c:658-701 | For any headers: the image is fixed if and only if the first section without code records its base, aligned and not 0, and not fixed if and only if none is recorded |
| `PeReadBack.XipRelocations` | BaseTools/ImageTool/PeScan.c:16-161 | The loader lets the relocation directory through and decoding it from the XIP file itself gives the image's relocations, if and only if it is aligned and its decoded form fits 32 bits |
| `PeReadBack.XipFixed` | MdePkg/Library/BaseUefiImageLib/PeSupport.c:658-701 | The fixed-address flag comes back, unless the base address is 0 or, in a 32-bit header, a multiple of 4 GiB |
| `PeReadBack.XipPath` | MdePkg/Library/BasePeCoffLib2/PeCoffDebug.c:27-236 | The symbols path comes back, also an empty one, if and only if its table is aligned |
| `PeReadBack.PathRoundTrip` | MdePkg/Library/BasePeCoffLib2/PeCoffDebug.c:27-236 | Following an emitted debug directory leads to exactly the path, or reports corruption if the directory is misaligned |
| `PeReadBack.TablesAligned` | BaseTools/ImageTool/PeEmit.c:64-78 | A section alignment that is a multiple of four aligns every table |
| `PeReadBack.ResourcesMisplaced` | BaseTools/ImageTool/PeEmit.c:92-113 | The resource table names address 112 for its data, which always lies elsewhere |
| `PeExamples.XipExists` | BaseTools/ImageTool/PeEmit.c:521-536 | An image has an XIP file if and only if it is not a fixed-address image in which every section holds code |
| `PeExamples.FixedCodeRefused` | BaseTools/ImageTool/PeEmit.c:521-536 | A concrete image, one page of code at a fixed address, that fits but has no XIP file |
| `PeExamples.ImproperNames` | BaseTools/ImageTool/PeScan.c:202-205 | Two concrete checked images, one with a segment named .debug and one with a segment without a name: they have XIP files, and the segments of every one of those fail the comparison |
| `PeExamples.FixedAtZeroLost` | MdePkg/Library/BaseUefiImageLib/PeSupport.c:685-698 | A concrete image fixed at address 0 whose XIP files come back as not fixed |
| `PeExamples.FixedComesBack` | MdePkg/Library/BaseUefiImageLib/PeSupport.c:685-698 | A concrete image fixed at address 0x800000: it has XIP files, they record that address, and come back as fixed |
| `PeExamples.MisalignedRefused` | MdePkg/Library/BasePeCoffLib2/PeCoffDebug.c:123-129 | A concrete image with alignment 2 whose XIP files do not give back its symbols path |
| `ElfScan.ParseSections` | BaseTools/ImageTool/ElfScan.c:152-236 | Base address, alignment and the presence of PIE relocations as the least address, the largest alignment and a relocation section for section 0; fails exactly for a target out of range, no loadable section, or an alignment or base that does not fit |
| `ElfScan.ParsedIs` | BaseTools/ImageTool/ElfScan.c:152-236 | What a parsed section table guarantees, with nothing left unsaid: targets, least address, largest alignment, its limit of 64 KiB |
| `ElfScan.VisitedAre` | BaseTools/ImageTool/ElfScan.c:244-278 | Exactly which relocation entries both passes visit |
| `ElfScan.PieOnly` | BaseTools/ImageTool/ElfScan.c:244-278 | If there are PIE relocations, they are the only ones that are processed; otherwise those for loadable sections are |
| `ElfScan.PassesAgree` | BaseTools/ImageTool/ElfScan.c:299-491 | The filling pass never keeps more relocations than the counting pass counted, and equally many if and only if no entry is a GOT entry |
| `ElfScan.KeptIsCounted` | BaseTools/ImageTool/ElfScan.c:540-565 | A type is counted exactly if it is kept or a GOT entry, for every machine |
| `ElfScan.KeptWidth` | BaseTools/ImageTool/ElfScan.c:318-488 | A relocation is kept exactly for the types that stand for an address, and is as wide as that address, for every machine |
| `ElfScan.KnownTypes` | BaseTools/ImageTool/ElfScan.c:318-488 | Exactly the types that do not make the filling pass fail |
| `ElfScan.KeptIs` | BaseTools/ImageTool/ElfScan.c:283-494 | The result of the filling pass: one relocation for every entry that stands for an address, in order, as wide as it and at its distance from the base |
| `ElfScan.CountPass` | BaseTools/ImageTool/ElfScan.c:524-575 | The counts of loadable sections and of countable relocations, or failure for a loadable relocation section |
| `ElfScan.SetRelocs` | BaseTools/ImageTool/ElfScan.c:283-494 | Stores, inside the array of the counted size, one relocation for every visited entry that stands for an address, with its width and its distance from the base, in order; fails exactly at an unknown type |
| `ElfScan.FillSection` | BaseTools/ImageTool/ElfScan.c:312-488 | The inner loop over one section's entries; the array has room for every store |
| `ElfScan.FillSegments` | BaseTools/ImageTool/ElfScan.c:600-644 | Fills exactly as many segments as were counted, each with its section's address and permissions |

## Left out

- UE XIP emission and scanning: the source marks it as provisional and skips its validation.
- UeScanner.ScanUeFile: reports failure for XIP files, which the source also reads.
- UeAnyFile.ScannedChecked: says nothing about XIP files, for the same reason.
- HII packages, reading HII data back, ACPI extraction and the command line: fixed layouts, file access and argument parsing.
- PE files outside XIP mode, the encoding of PE header fields and the PE loader: the model starts from a loaded image and the fields that describe its layout.
- ELF parsing outside the section table, section contents, names and the symbol path: straight-line copying.
- Allocation failure, destruction and diagnostics: failure is a result value only.
- Hashing and loading for execution in the UE library: only what reading a file back needs is modelled.
- PeLayout.EmitXip: does not model the bytes of the headers, nor more sections than their 16-bit number counts.
- Tool.Emit: starts from an image that has been read already; reading ELF and PE input is not part of it, nor are PE and XIP output.
- Tool.SortRelocs: an insertion sort stands for the library's sort; only its contract is used.
- ElfScan.FillSegments: does not model the copying of section contents, which depends on file bytes outside the section table.
- ElfScan.CountPass: visits the entries of a section as a list; an entry size of zero, for which the source does not terminate, has no counterpart.
- PeReadBack.XipComesBack: says nothing about HII data, whose reader is not modelled.
