# Exif reader core of `exif.c`, modelled in Dafny

This project models the decoding core of the `exif.c` library, which reads
the Exif metadata of a JPEG file and can rewrite the file without it.

The modelled core:

- **Byte order** (`ByteOrder`): `swab16`, `swab32`, `fix_short`, `fix_int`
  and `dataIsLittleEndian`. A host of either byte order loads a multi-byte
  field natively; the fix helpers then swap it when the data order differs.
  The host order is a parameter wherever the C code calls
  `systemIsLittleEndian()`.
- **Segment locator** (`SegmentLocator`): `getApp1StartOffset`. It walks the
  JPEG marker stream from the SOI marker and skips APPn segments by their
  big-endian length. It stops at the first APP1 segment whose payload starts
  with `"Exif\0"`.
- **TIFF header** (`TiffHeader`): `readApp1SegmentHeader` and `init`. They
  read the 18-byte APP1 header and check the byte-order mark and the TIFF
  version 42. The two globals they set (`App1StartOffset`, `App1Header`)
  become one `Session` value.
- **Tag list** (`TagList`): `createIfdTable`, `addTagNodeToIfd`,
  `getTagNodePtrFromIfd`, `duplicateTagNode` and `getIfdType`. An IFD table
  is a class. The source's doubly linked tag list is the table's `tags`
  sequence, which `AddTagNodeToIfd` extends at the tail.
- **Directory decoder** (`IfdDecoder`): `parseIFD`.
  - It reads the tag count, the 0th IFD's next-IFD offset and the 12-byte
    records.
  - Each record's value is decoded by type: inline in the 4-byte value field
    or at an offset, under the oversize guards, with signed types
    zero-extended.
  - A record of an unhandled type is skipped. A value that cannot be read
    flags only its own tag.
  - Each imperative routine (the record loop, the word-fixing loops) is a
    method proved equal to a specification function that does not depend on
    the host. For the rational and integer branches, both are the corrected
    decoding of "## Findings". There the code as written wraps counts at 32
    bits, overruns its scratch buffer and reuses stale bytes, so it is not
    host-independent. Separate members model those branches as written.
- **Directory assembler** (`DirectoryAssembler`): `createIfdTableArray` and
  `getTagInfo`.
  - The array holds the 0th IFD, the Exif IFD and the Interoperability IFD
    inside it, the GPS IFD and the 1st IFD, in that order.
  - The NULL-terminated array is a sequence. An empty sequence stands for
    NULL.
- **Segment rewriter** (`SegmentRewriter`): `removeExifSegmentFromJPEGFile`.
  - It copies the bytes before the Exif segment, skips the marker and the
    bytes the length field counts, then copies the rest in 8192-byte chunks.
  - The output file is a class with a capacity. `fwrite` stores what fits.

Files are byte sequences. A read of `k` bytes either delivers them all or is
short, and an `fseek` to a non-negative position always succeeds. A file that
cannot be opened is `None`.

Where the code and its documentation differ, the model follows the code,
except for the four defects listed under "## Findings". There the main model
follows the evidently intended behaviour, and a separate as-written member
exhibits the code's behaviour. The places where the model follows the code:

- A table can hold fewer tags than its tag count, because unknown types are
  skipped.
- `createIfdTableArray` returns the tables that decoded even when it reports
  `ERR_INVALID_IFD`.
- The rewriter reports `ERR_READ_FILE` when the output file cannot be opened.

## Model

| member | source | states |
|---|---|---|
| ByteOrder.Swab16 | exif.c:604-607 | the result's low byte is the argument's high byte and vice versa |
| ByteOrder.Swab32 | exif.c:609-614 | the result's four bytes are the argument's bytes in reverse order |
| ByteOrder.DataIsLittleEndian | exif.c:593-596 | true exactly when the mark's two bytes are "II", whichever order the host stored them in |
| ByteOrder.FixShort | exif.c:616-620 | the data-order value of the two bytes the natively loaded variable holds in host memory |
| ByteOrder.FixInt | exif.c:622-626 | the data-order value of the four bytes the natively loaded variable holds in host memory |
| ByteOrder.Swab16Involution | exif.c:604-607 | swapping a 16-bit value twice gives it back |
| ByteOrder.Swab32Involution | exif.c:609-614 | swapping a 32-bit value twice gives it back |
| ByteOrder.Swab32IsReversal | exif.c:609-614 | swab32 reads the four bytes of its argument in reverse order |
| ByteOrder.Swab16OfLoad | exif.c:604-607 | swapping a loaded 16-bit field equals loading it in the other byte order |
| ByteOrder.Swab32OfLoad | exif.c:609-614 | swapping a loaded 32-bit field equals loading it in the other byte order |
| ByteOrder.FixShortOfLoad | exif.c:616-620 | a natively loaded 16-bit field passed through fix_short has its data-order value, on either host |
| ByteOrder.FixIntOfLoad | exif.c:622-626 | a natively loaded 32-bit field passed through fix_int has its data-order value, on either host |
| ByteOrder.FixedFieldIsHostIndependent | exif.c:616-626 | a little-endian and a big-endian host decode every fixed field identically |
| ByteOrder.MirroredFieldsDecodeAlike | exif.c:593-596 | flipping the byte-order mark and reversing a field's bytes leaves its decoded value unchanged; the field-level step of IfdDecoder.MirroredRecordDecodesAlike |
| ByteOrder.ByteOrderMarkIsHostIndependent | exif.c:1185-1186 | comparing the natively loaded mark with 0x4949 / 0x4D4D identifies the bytes "II" / "MM" on both hosts |
| SegmentLocator.LocateExifSegment | exif.c:1207-1286 | a found segment starts at offset 2 or later, with its marker, length and identifier inside the file |
| SegmentLocator.ScanSegments | exif.c:1244-1285 | a segment found by the marker loop starts no earlier than the marker under examination and lies inside the file |
| SegmentLocator.GetApp1StartOffset | exif.c:1207-1286 | the marker walk on either host returns the host-independent locator result |
| SegmentLocator.ScanFailsOnlyOnShortRead | exif.c:1244-1285 | once past SOI, the walk fails only with ERR_READ_FILE |
| SegmentLocator.LocateInvalidJpegIff | exif.c:1220-1229 | ERR_INVALID_JPEG exactly when the first two bytes exist and are not FF D8 |
| SegmentLocator.LocateErrors | exif.c:1207-1286 | the only errors are ERR_INVALID_JPEG and ERR_READ_FILE |
| SegmentLocator.LocateWithoutAppSegments | exif.c:1237-1248 | a file whose first marker after SOI is not APPn (DQT included) has no Exif segment |
| SegmentLocator.ScanFoundIsExifApp1 | exif.c:1261-1269 | a segment found by the walk is an FF E1 marker followed, after the length, by "Exif\0", inside the file |
| SegmentLocator.LocateFoundIsExifApp1 | exif.c:1207-1286 | a found offset is at least 2 and points at an Exif APP1 segment |
| SegmentLocator.ScanOfExtension | exif.c:1244-1285 | appending bytes does not change a walk result other than a short read |
| SegmentLocator.LocateOfExtension | exif.c:1207-1286 | appending bytes does not change a locator result other than a short read |
| SegmentLocator.ScanDependsOnTail | exif.c:1244-1285 | the walk from a marker depends only on the bytes from that marker on |
| SegmentLocator.LocateSkipsAppSegment | exif.c:1256-1260 | inserting a non-Exif APPn segment after SOI shifts the found offset by its size and changes nothing else |
| TiffHeader.Session.SeekPosition | exif.c:628-632 | the absolute position of a TIFF-relative offset, wrapped to 32 bits: exact below 2^32, smaller above |
| TiffHeader.DecodeApp1Header | exif.c:1172-1197 | an accepted header lies inside the file, has the mark II or MM, and has version 42 |
| TiffHeader.InitSession | exif.c:1296-1309 | 0 exactly when no segment is located; ready exactly when a segment is located and its header is accepted, and then with that header; ERR_INVALID_APP1HEADER exactly when the header is rejected; otherwise a locator error |
| TiffHeader.ReadApp1SegmentHeader | exif.c:1172-1197 | the header read on either host equals the host-independent decoding |
| TiffHeader.Init | exif.c:1296-1309 | init returns the session of the located segment, 0 when none is found, or the error |
| TiffHeader.DecodeApp1HeaderIff | exif.c:1172-1197 | the header is accepted exactly when 18 bytes are present, the mark is II or MM, and the version is 42 in that order; length big-endian, 0th-IFD offset in data order |
| TiffHeader.InitReadyIsValid | exif.c:1296-1309 | a ready session starts at an FF E1 marker at offset 2 or more, with its 18-byte header inside the file and a valid mark and version |
| TagList.NewTagNode | exif.c:813-851 | a node is errored exactly for a zero count or no data; otherwise it holds the first Slots numbers or count bytes |
| TagList.IfdTable.constructor | exif.c:802-810 | a new table has the given kind, tag count and next offset, and no tags |
| TagList.IfdTable.AddTagNodeToIfd | exif.c:813-866 | the new node is linked at the tail; the nodes already present are unchanged |
| TagList.FindTag | exif.c:939-953 | the index of the first tag with the id, or none when no tag has it |
| TagList.FindTagAfterAppend | exif.c:939-953 | appending a tag does not change an earlier successful search |
| TagList.TagById | exif.c:939-953 | the returned tag is the first in the list with the id; none only when no tag has it |
| TagList.GetTagNodePtrFromIfd | exif.c:939-953 | NULL for a NULL table or when no tag has the id; otherwise the first tag of the table with the id |
| TagList.DuplicateTagNode | exif.c:869-896 | NULL exactly for a zero count; otherwise an equal copy of the node |
| TagList.GetIfdType | exif.c:362-369 | the accessor's whole promise, stated as documentation: IFD_UNKNOWN for NULL, the table's kind otherwise |
| IfdDecoder.ByteArrayValue | exif.c:1020-1055 | ASCII/UNDEFINED values pass bytes only, and enough of them for the count |
| IfdDecoder.RationalValue | exif.c:1056-1079 | rational values pass exactly 2·count words, and only when 8·count is below the segment length |
| IfdDecoder.IntegerValue | exif.c:1080-1155 | integer arrays pass exactly count words, and only when 4·count is below the segment length |
| IfdDecoder.DecodeTagValue | exif.c:1020-1155 | a record is decoded exactly when its type is handled, with data that fits the count |
| IfdDecoder.DecodeTag | exif.c:1020-1155 | every node a record adds satisfies the node invariant |
| IfdDecoder.DecodeRecords | exif.c:1002-1009 | the records decode exactly when all of them can be read; at most one node per record |
| IfdDecoder.DecodeIfd | exif.c:967-1163 | a decoded table has the requested kind, no more tags than its count, consistent nodes, and next offset 0 unless it is the 0th IFD |
| IfdDecoder.ParseTagRecord | exif.c:1004-1155 | the per-record body on either host equals the host-independent decoding |
| IfdDecoder.ParseRationalValue | exif.c:1056-1079 | the rational branch, with its fix_int loop, equals the corrected specification on either host |
| IfdDecoder.ParseIntegerValue | exif.c:1080-1155 | the integer branch equals the corrected specification on either host |
| IfdDecoder.InlineElements | exif.c:1124-1135 | values taken from the value field are the data-order elements, on either host |
| IfdDecoder.FixedElements | exif.c:1136-1150 | values read from the offset are the zero-extended data-order elements, on either host (the corrected loop) |
| IfdDecoder.ParseIfd | exif.c:967-1163 | parseIFD returns NULL exactly when the specification fails; otherwise a new valid table equal to it |
| IfdDecoder.ReadNextIfdOffset | exif.c:988-997 | only the 0th IFD reads the next-IFD link after its records, None only on its short read; the other kinds get 0; equals the decoded link |
| IfdDecoder.ReadTagRecords | exif.c:1003-1156 | the record loop fails exactly when a record cannot be read; otherwise the table holds the decoded records |
| IfdDecoder.DecodeIfdSucceedsIff | exif.c:980-1009 | a directory decodes exactly when its count, its next offset (0th only) and all its records can be read |
| IfdDecoder.DecodeRecordsInOrder | exif.c:1002-1156 | when every type is handled, the table holds one node per record, in file order |
| IfdDecoder.DecodeRecordsShortOnSkip | exif.c:1020-1155 | a record of an unhandled type is skipped, leaving fewer nodes than the tag count |
| IfdDecoder.ByteArrayPlacement | exif.c:1020-1055 | ASCII/UNDEFINED: up to 4 bytes inline, otherwise the bytes at the offset; errors for zero, oversized or unreadable values |
| IfdDecoder.RationalPlacement | exif.c:1056-1079 | rationals are always read at the offset; errors for zero, oversized or unreadable values |
| IfdDecoder.IntegerPlacement | exif.c:1087-1151 | integers fitting in 4 bytes come from the value field, others from the offset; a single value is never oversized |
| IfdDecoder.DecidedWithoutRead | exif.c:1020-1155 | oversized and inline values do not depend on the file's other bytes, and oversized ones are errors |
| IfdDecoder.SignedValuesZeroExtended | exif.c:1089-1150 | SBYTE and SSHORT values are not sign-extended |
| IfdDecoder.NextIfdFieldFollowsRecordsOnlyAt8 | exif.c:988-998 | the next-IFD offset is read right after the records only when the 0th IFD starts at TIFF offset 8 |
| IfdDecoder.RationalValueAsWritten | exif.c:1056-1079 | as written, the words passed number 2·count modulo 2^32 |
| IfdDecoder.RationalCountWrapAsWritten | exif.c:1057-1059 | a count of 2^31 passes the as-written guard with no words; the corrected guard rejects it |
| IfdDecoder.ScratchReadAsWritten | exif.c:1103-1138 | as written, a multi-value read into the scratch buffer is size·count bytes modulo 2^32, above 4, behind the wrapped 4·count guard |
| IfdDecoder.AllocatedWordsAsWritten | exif.c:1111-1116 | as written, the allocation holds count words only below 2^30 values; it always holds fewer than 2^30 |
| IfdDecoder.ScratchBufferOverrunAsWritten | exif.c:1111-1138 | 5000 SHORTs read 10000 bytes into the 8192-byte buffer; 2^30+1 LONGs wrap to a 4-byte read length, read nothing, and leave one allocated word for 2^30+1 slots; the corrected decoding rejects the latter |
| IfdDecoder.StaleElementAsWritten | exif.c:1142-1149 | stale bytes of `val` change decoded SHORT and BYTE elements |
| IfdDecoder.MirroredRecordDecodesAlike | exif.c:1003-1015 | a record written in the other byte order (mark flipped, tag, type and count byte-reversed, value field mirrored by type) decodes to the same tag, type and count, the same offset, and the same value when the value is inline, oversized or of an unhandled type |
| DirectoryAssembler.PointerTarget | exif.c:262-264 | a pointer tag is followed only when present, unflagged and numeric; its first number is the offset |
| DirectoryAssembler.Follow | exif.c:262-305 | following yields at most one table, of the requested kind and consistent, or a failure without a table |
| DirectoryAssembler.CreateIfdTableArray | exif.c:220-332 | the status and tables, on either host, are those the specification assembles |
| DirectoryAssembler.ParseIfdTables | exif.c:250-319 | after init, the tables created and the status equal the assembled specification |
| DirectoryAssembler.FollowExif | exif.c:260-285 | the Exif IFD, then the Interoperability IFD only when the Exif IFD decoded |
| DirectoryAssembler.FollowGpsAndFirst | exif.c:287-315 | the GPS IFD, then the 1st IFD when the next offset is non-zero |
| DirectoryAssembler.FollowAndAdd | exif.c:287-301 | a decoded IFD is stored in the next slot; a failed one sets the failure flag |
| DirectoryAssembler.FirstOfType | exif.c:543-551 | the index of the first table of the kind, or none when no table has it |
| DirectoryAssembler.TagInfo | exif.c:535-553 | a returned tag has the id, a positive count and a consistent payload, and equals a tag of a table of the kind; NULL when no table has the kind |
| DirectoryAssembler.GetTagInfo | exif.c:535-553 | the array walk returns the specified lookup: first table of the kind, first tag with the id, duplicated |
| DirectoryAssembler.AssembledShape | exif.c:250-331 | the array is empty exactly when the 0th IFD fails; otherwise it starts with it, holds each kind at most once in order, IO right after Exif, count status equals length |
| DirectoryAssembler.IfdTableArrayStatus | exif.c:220-332 | ERR_READ_FILE without a file; 0 exactly when no Exif segment; a count equal to the length; an error with a non-empty array is ERR_INVALID_IFD; for a ready session whose 0th IFD decodes, the outcome PartialFailureStatus states |
| DirectoryAssembler.PartialFailureStatus | exif.c:250-331 | when the 0th IFD decodes: ERR_INVALID_IFD exactly when the Exif, Interoperability, GPS or 1st branch fails, the count otherwise; the 0th table comes first; the Exif table is present exactly when the Exif pointer is there and its IFD decodes; the Interoperability table exactly when the Exif IFD decoded and its Interoperability pointer decodes; the GPS and 1st tables exactly when their own IFD decodes, whatever the other branches did; each decoded table is in the array |
| DirectoryAssembler.CombineKinds | exif.c:262-318 | in the assembled array the Exif, Interoperability, GPS and 1st kinds are present exactly when their own branch yielded a table, and that table is in the array |
| DirectoryAssembler.KindsOfCombine | exif.c:262-318 | a kind occurs in the array exactly when it is the 0th IFD or its own branch's part is non-empty |
| DirectoryAssembler.TagInfoFound | exif.c:535-553 | a returned tag has the id and a positive count and is the first such tag of a table of the kind |
| DirectoryAssembler.TagInfoOfOrderedArray | exif.c:535-553 | on an array built by createIfdTableArray, the lookup searches the one table of the kind |
| DirectoryAssembler.PointerUseAsWritten | exif.c:262-264 | as written, an unflagged byte-holding pointer tag is a NULL dereference; numeric ones are followed as PointerTarget says |
| DirectoryAssembler.AsciiPointerDereferencesNull | exif.c:262-264 | an ASCII Exif-pointer record decodes to a byte node that the code dereferences as numbers |
| SegmentRewriter.OutputFile.Fwrite | exif.c:184-188 | fwrite appends what fits and returns that count |
| SegmentRewriter.WithoutSegment | exif.c:147-176 | the bytes before the segment, then the bytes after marker plus length, nothing when the length runs past the end |
| SegmentRewriter.RemoveExifSegment | exif.c:124-198 | the output file is written only when it opens, never beyond its capacity, and exactly on success or ERR_WRITE_FILE; on ERR_WRITE_FILE it is full |
| SegmentRewriter.RemoveExifSegmentFromJpegFile | exif.c:124-198 | the status and output file equal the specification on either host; the output is untouched unless a segment was found and it opened |
| SegmentRewriter.CopyRest | exif.c:177-190 | the chunk loop writes the rest of the file, or fails with ERR_WRITE_FILE after the bytes that fit |
| SegmentRewriter.ReinsertSegment | exif.c:171-176 | putting the removed bytes, which start with FF E1, back at the offset restores the file |
| SegmentRewriter.RemovalOutcomes | exif.c:124-198 | 0 exactly when no segment is located; success exactly when the output opens and has room; the output is the file without the segment |

## Left out

- Printing is not modelled: `setVerbose`, the `Verbose` messages, the dump functions and `getTagName`.
- `sample_main.c` is a command-line front end and is not part of this model.
- exif.h is not part of this model. The error codes are a datatype. Type codes follow TIFF Revision 6.0 section 2. Pointer tag ids follow Exif 2.3 section 4.6.3.
- The free functions and memory management are left out: `freeIfdTable`, `freeTagNode`, `freeIfdTableArray`, `freeTagInfo`.
- malloc failures are left out: the NULL branches after malloc in `parseIFD` and `createIfdTableArray`, and the stripper's byte-by-byte fallback copy (exif.c:154-159).
- fseek failure branches are left out (exif.c:1258-1260, 1271-1274, 174-177 and the seeks of parseIFD). Every target position is non-negative, so they cannot fail. Reading past the end is a short read.
- The stripper's short-read check on the bytes before the segment (exif.c:160-163) is not reachable: init has checked that the segment lies inside the file.
- Positions are unbounded. `App1StartOffset` and the stripper's `ofs` are C `int` values taken from `ftell`; the model assumes files below 2 GiB.
- `systemIsLittleEndian` inspects memory. Here the host order is the `hostLittle` parameter of the methods.
- The globals `App1StartOffset` and `App1Header` are not modelled as shared state. They become a `Session` value, so reentrancy and interleaving of calls are not modelled.
- The doubly linked tag list and the NULL-terminated `void**` array are sequences. `prev`/`next` links and the 32-slot local array are not modelled.
- A duplicated node is an equal value, so aliasing between copies does not arise.
- Only a full output file makes a write short: the output file's capacity. Other write errors and `fclose` results are not modelled.
- IfdDecoder.RationalValue: rejects a rational whose unwrapped 8·count reaches the segment length, where the code wraps `realCount` at 32 bits (see "## Findings", exif.c:1057-1059).
- IfdDecoder.ParseRationalValue: follows RationalValue, the corrected guard, not the wrapping code.
- IfdDecoder.IntegerValue: guards with the unwrapped 4·count and reads size·count bytes without the 8192-byte scratch buffer, where the code wraps both sizes and overruns `buf` (see "## Findings", exif.c:1111-1138).
- IfdDecoder.ParseIntegerValue: follows IntegerValue, the corrected decoding, not the wrapping code.
- IfdDecoder.FixedElements: zero-extends each element, where the code reuses `val`'s stale bytes (see "## Findings", exif.c:1142-1149); as written the branch is not host-independent.
- DirectoryAssembler.PointerTarget: follows only a pointer tag with numeric data, where the code dereferences a NULL `numData` (see "## Findings", exif.c:262-264).
- IfdDecoder.RationalValueAsWritten: assumes `malloc(0)` returns a usable pointer. With a NULL return the wrapped count gives an errored node instead.
- DirectoryAssembler.CreateIfdTableArray: returns a sequence of tables rather than the NULL-terminated array, and does not model the array's allocation. Through PointerTarget and the corrected decoder, it assembles the tables of the intended behaviour on inputs that hit the four findings.
- MirroredFieldsDecodeAlike: speaks of one 2- or 4-byte field; the record and inline-value statement is IfdDecoder.MirroredRecordDecodesAlike.
- IfdDecoder.MirroredRecordDecodesAlike: covers values stored inside the record; a value read at an offset would need the value area mirrored too, which is not modelled.
- IfdDecoder.DecodeIfd: states `|tags| <= tagCount` rather than one node per record, because the code skips records of unknown types silently. DecodeRecordsInOrder and DecodeRecordsShortOnSkip give the exact conditions.

## Findings

| source | as written | input that shows it | evidently intended | confidence | as-written member | corrected member |
|---|---|---|---|---|---|---|
| exif.c:1057-1059 | `realCount = tag.count * 2` is formed in 32-bit unsigned arithmetic before the length guard | a RATIONAL tag with count 0x80000000: realCount wraps to 0, the guard passes, and a node with count 2^31 and no numbers is added | reject a rational whose 8·count bytes reach the segment length | not executed | IfdDecoder.RationalCountWrapAsWritten | IfdDecoder.RationalValue |
| exif.c:1111-1138 | the guard bounds 4·count (truncated to 32 bits) by the segment length, but size·count bytes are read into the fixed 8192-byte `buf`; the allocation and the read length also wrap at 32 bits | 5000 SHORT values in a segment of length 65535 read 10000 bytes into `buf`; 0x40000001 LONG values wrap the allocation to 4 bytes and the read length to 4, so nothing is read and addTagNodeToIfd copies 0x40000001 words from a one-word allocation | read the count values into storage of size·count bytes, with unwrapped sizes, and reject counts the segment cannot hold | not executed | IfdDecoder.ScratchBufferOverrunAsWritten | IfdDecoder.IntegerValue |
| exif.c:1142-1149 | each element is copied over the first `size` bytes of the 32-bit `val`, whose other bytes keep their old contents | big-endian host and data, SHORT bytes 00 05 with `val` 0: decodes as 0; little-endian host, BYTE 07 after `val` 0x100: decodes as 0x107 | each element zero-extended from its own bytes in data order (5 and 7) | not executed | IfdDecoder.StaleElementAsWritten | IfdDecoder.IntegerPlacement |
| exif.c:262-264 | a present, unflagged pointer tag is followed through `numData[0]` whatever its type | a 0th IFD whose Exif pointer record is type ASCII, count 4: the node holds bytes and `numData` is NULL | follow only a pointer tag with numeric data | not executed | DirectoryAssembler.AsciiPointerDereferencesNull | DirectoryAssembler.PointerTarget |
