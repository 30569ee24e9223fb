# node-vpk2 in Dafny

A model of node-vpk2, a small library for Valve's VPK archive format. It covers three parts.

- **The binary layout.** A VPK directory file (`*_dir.vpk`) starts with a header: the signature `0x55AA1234`, the version (1 or 2), the byte length of the tree, and four more 32-bit fields in version 2. Then comes the tree. It is three nested lists of null-terminated strings: extensions, then directories, then file names. Each file name is followed by an 18-byte directory record and that record's preload bytes. An empty string closes a list.
- **The reader** (class `VPK`). `load` parses the directory file into a map from flat paths to records. `files` lists the paths. `getFile` assembles a file from its preload bytes and its main data. The main data is either in the directory file, after the tree, or in a numbered companion archive `<name>_NNN.vpk`. The result is checked against the record's CRC. `extract` writes every file under a destination directory. A failure to resolve a file aborts it. A failure to write a file is collected and reported at the end.
- **The builder** (class `VPKcreator`). `load` takes a scanned directory. It gives each file its entry size and, as its data offset, the total size of the files before it. `save` writes a version-1 header and the tree into a zero-filled buffer, then appends the contents of every file.

Modules:

- `Bytes` (`bytes.dfy`): 8/16/32-bit values, little-endian encodings, buffer writes and positioned reads, and one byte per character.
- `Types` (`types.dfy`): the records of `src/types.ts`, the library's error messages and a `Result` type.
- `Codec` (`codec.dfy`): the `jBinary` type set. The header, entry and tree readers are functions. The tree reader's three nested loops are also a method, proved equal to the function.
- `Reader` (`reader.dfy`): the `Vpk` class over a value-level file system.
- `Builder` (`builder.dfy`): the `Creator` class. Its methods size the entries and assign offsets in place in an array, then fill the tree buffer, an `array<u8>`, entry by entry.
- `RoundTrip` (`roundtrip.dfy`): what the reader makes of an archive the builder saved. This part contains the finding below.

Inputs that come from outside the library are parameters.

- The file system is a `FileSystem` value: the bytes of every existing file, the paths whose writes fail, and the directories that cannot be created. A positioned read of a short file fills the rest of the buffer with zeros, as `readSync` into a `Buffer.alloc` buffer does.
- The checksum function `crc.crc32` is a parameter `crc32: seq<u8> -> u32`.
- The builder's `isValid()` check is the boolean `isDirectory`. The output of `listFiles` is the sequence `scan`.
- Errors thrown by the library are `Failure(e)` / `Fail(e)` values. Each `e` is named after its message.

## Model

| member | source | states |
|---|---|---|
| Types.FileTree.Put | index.ts:102 | storing an entry under a path maps that path to the new entry (a later duplicate overwrites an earlier one); the key order gains the path only the first time it is stored, and distinct keys stay distinct |
| Bytes.LE16RoundTrip | index.ts:10 | two bytes written little-endian read back as the same 16-bit value |
| Bytes.LE32RoundTrip | index.ts:10 | four bytes written little-endian (`writeUInt32LE`) read back as the same 32-bit value (`uint32` in little-endian mode) |
| Bytes.U16At | index.ts:10 | a 16-bit little-endian read has the byte at the position as its low byte and the next byte as its high byte |
| Bytes.U32At | index.ts:10 | a 32-bit little-endian read has the 16-bit value at the position as its low half and the one two bytes on as its high half |
| Bytes.LE16 | index.ts:383 | `writeUInt16LE` stores exactly two bytes |
| Bytes.LE32 | index.ts:382 | `writeUInt32LE` stores exactly four bytes |
| Bytes.Window | index.ts:175 | a positioned read returns at most the requested length: exactly the requested slice when the file is long enough, nothing past the end |
| Bytes.PaddedWindow | index.ts:175 | a positioned read into a zero-filled buffer of the read length leaves, at each index, the file's byte at the read position plus that index, or 0 past the end of the file |
| Bytes.Overlay | index.ts:380-388 | a buffer write changes exactly the written range, keeps the buffer length, and leaves the bytes before and after it alone |
| Bytes.BytesOfChars | index.ts:66 | decoding bytes one character per byte gives a one-byte string that encodes back to the same bytes |
| Bytes.CharsOfBytes | index.ts:380 | a string of characters below 0x100, written one byte per character, decodes back to itself; the names the round trip writes are ASCII, where those bytes are the UTF-8 bytes `tree.write` stores (`Bytes.Utf8Length`) |
| Bytes.Utf8Length | index.ts:380 | `tree.write` stores a string as UTF-8: never fewer bytes than characters, exactly one byte per character when every character is ASCII, and then the bytes are the one-byte-per-character encoding; any non-ASCII character makes the bytes outnumber the `.length` the entry was sized by (index.ts:335) |
| Codec.ReadHeader | index.ts:12-37 | succeeds exactly when the signature is 0x55AA1234 and the version is 1 or 2 (with room for the 28 bytes of a version-2 header); fails with the signature error or the version error otherwise; reads version, tree length and, for version 2 only, the four extra fields; consumes 12 bytes for version 1 and 28 for version 2 |
| Codec.ReadEntry | index.ts:41-57 | succeeds exactly when 18 bytes are available and the trailing u16 is 0xFFFF, failing with the terminator error otherwise; reads crc, preloadBytes, archiveIndex, entryOffset and entryLength at their offsets and consumes 18 bytes |
| Codec.FindNull | index.ts:66 | the zero byte found lies between the cursor and the end of the buffer |
| Codec.ReadString0 | index.ts:66 | a successful `string0` read moves the cursor past the characters read and one zero byte, staying within the buffer; the only failure is running out of bytes |
| Codec.FindNullSpec | index.ts:66 | the zero byte found is the first one from the cursor on; none is found exactly when no byte from the cursor on is zero |
| Codec.ReadString0Spec | index.ts:66 | a `string0` read returns the characters up to the first zero byte and moves the cursor just past it; it fails exactly when there is no zero byte before the end |
| Codec.FullPath | index.ts:86-95 | the flat key is the directory and a slash, then the name, then a dot and the extension, each part left out when it is a single space: the key starts with the directory and its slash, the name fills the key right after them (from the start when there is no directory), the key ends with the dot and the extension, and its length is the sum of the parts kept; a key with neither directory nor extension is the name alone |
| Codec.HeaderLength | index.ts:114-115 | the header is 12 bytes for version 1, 28 for version 2, and 0 for any other version (with index.ts lines 182-186) |
| Codec.FullPathInjective | index.ts:86-95 | within one extension and directory, two different file names never produce the same key, so a key is overwritten only by a repeated name or by another group |
| Codec.ReadFileRecord | index.ts:97-100 | succeeds exactly when the entry reads and its preload bytes fit; the entry's `preloadOffset` is the cursor right after the terminator, and the next name starts `preloadBytes` bytes later; an entry failure propagates |
| Codec.ParseTree | index.ts:61-108 | a successful tree parse ends strictly after its start and within the buffer |
| Codec.ParseTreeExtends | index.ts:61-108 | a successful parse keeps the keys it started with as the front of the key order and keeps the key order free of duplicates; every entry it adds or replaces has its preload offset and preload bytes inside the parsed range |
| Codec.ParseStopsAtEmptyExtension | index.ts:66-70 | a zero byte where an extension is expected ends the tree at once, with nothing added and the cursor after that byte |
| Codec.UnfoldExtensions | index.ts:65-71 | the outer loop: a failed string read fails the parse, an empty extension ends it, and any other extension opens its directory list |
| Codec.UnfoldDirectories | index.ts:72-78 | the middle loop: an empty directory returns to the extension list, and any other directory opens its name list |
| Codec.UnfoldNames | index.ts:79-103 | the inner loop: an empty name returns to the directory list; any other name reads its record and skips the preload bytes; the entry is stored under the flat key built by the single-space rules, and the parse continues |
| Codec.ExtendsPut | index.ts:97-102 | storing one entry with its preload inside the range, before a parse that extends the tree, still extends the original tree over the whole range |
| Codec.ReadRecordAndSkip | index.ts:97-100 | the cursor-advancing record read returns exactly what `ReadFileRecord` specifies |
| Codec.ReadTree | index.ts:61-108 | the three nested `while (true)` loops return exactly the tree and end position that `ParseTree` specifies, including every failure |
| Reader.DecimalString | index.ts:192 | the decimal text of a number has at least one digit, and at least two from 10 on |
| Reader.LastDigit | index.ts:192 | the last character of a number's decimal text is its last digit |
| Reader.ArchiveNumberDigits | index.ts:192 | `('000' + index).slice(-3)` is always the last three decimal digits of the index: zero-padded below 100, truncated from 1000 on |
| Reader.LastThreeDigits | index.ts:192 | from 100 on, the decimal text of a number ends with its hundreds, tens and units digits |
| Reader.ArchiveNumber | index.ts:192 | the archive number is always three characters long |
| Reader.ArchivePath | index.ts:193 | the archive path has the length of the directory path; a path that does not end in `_dir.vpk` is used unchanged, as `replace` with an unmatched pattern leaves it |
| Reader.ArchivePathOfDirectoryFile | index.ts:193 | `<name>_dir.vpk` becomes `<name>_NNN.vpk` with NNN those three digits, and the path keeps its length |
| Reader.LocateRules | index.ts:179-196 | with a version 1 or 2 header, data in the directory file (archive index 0x7FFF) is at tree length + 12 or 28 + entry offset; data in any other archive is at the raw entry offset of the companion path, whatever the header says |
| Reader.DataBase | index.ts:180-186 | with no header the directory-file data starts at 0; otherwise it starts after the tree and the header of the loaded version |
| Reader.Locate | index.ts:179-196 | data in the directory file (archive 0x7FFF) is read from the directory path, at or past the entry offset; data in any other archive is read at the entry offset from an archive path of the same length |
| Reader.PreloadPart | index.ts:173-176 | the preload part of the buffer is exactly `preloadBytes` long |
| Reader.MainPart | index.ts:178-197 | the main part of the buffer is exactly `entryLength` long |
| Reader.PreloadContents | index.ts:171-176 | byte i of the preload part is byte `preloadOffset + i` of the directory file, or 0 where that file ends early; when the file is long enough the part is exactly that slice |
| Reader.MainContents | index.ts:178-197 | byte i of the main part is byte `offset + i` of the file `Locate` names, at the offset it gives (directory file after header and tree, or companion archive at the raw offset), or 0 where that file ends early; when the file is long enough the part is exactly that slice |
| Reader.Retrieve | index.ts:171-198 | an assembled file is `preloadBytes + entryLength` bytes long; assembling fails, with an I/O error, exactly when a file that has to be opened does not exist |
| Reader.OverlayZeros | index.ts:171-189 | a short read into a zero-filled part of the buffer leaves the read bytes followed by zeros |
| Reader.Fetch | index.ts:164-205 | `getFile` fails with "No such file" exactly when the path has no entry or the entry's preload offset is missing or 0; on success the result is the assembled buffer, its length is `preloadBytes + entryLength`, and its checksum equals the entry's crc; it fails with the CRC error exactly when the buffer assembles but its checksum differs |
| Reader.FetchSucceeds | index.ts:164-205 | `getFile` succeeds exactly when the path resolves to an entry with a non-zero preload offset, its buffer can be assembled, and the buffer's checksum equals the entry's crc; when the entry resolves but a file it needs cannot be opened, `getFile` returns that failure unchanged |
| Reader.LoadKeepsValid | index.ts:146-158 | loading keeps the reader state consistent; a successful load leaves it loaded with a version 1 or 2 header; a failed load leaves the tree and the loaded flag as they were (the header may already be overwritten) |
| Reader.LoadStep | index.ts:146-158 | a passing load is loaded with a header; a failing load keeps the tree and the loaded flag; a missing directory file fails with an I/O error on that path and a header that does not read fails with "Failed to load", both changing nothing |
| Reader.LoadInstalls | index.ts:146-158 | with the directory file present, a load passes exactly when the header and then the tree parse, and then installs that header and that tree and sets `loaded`; a tree that does not parse fails with "Failed loading" but leaves the new header assigned (index.ts:152-153) |
| Reader.LastSlash | index.ts:232 | `lastIndexOf('/')`: -1 or the index of a slash, with no slash after it |
| Reader.LastSlashAfter | index.ts:230-232 | the last slash of `dir + "/" + key` is inside the key when the key has one, and otherwise is the slash that was added |
| Reader.ParentDir | index.ts:232 | the directory `extract` makes for a destination file; `Reader.ParentDirSplit` proves it is the part of the path before its last slash |
| Reader.ParentDirSplit | index.ts:232 | the directory of a path is the part before its last slash, with no slash after that one, and the empty string when there is no slash |
| Reader.ParentDirOfDestination | index.ts:230-232 | the directory made for a file is the destination directory, followed by the key's own directory when the key has one |
| Reader.ExtractKeys | index.ts:227-258 | extraction never reports more files written or failed than there are keys |
| Reader.ExtractNext | index.ts:229-257 | one iteration of the extraction loop: it leaves the extraction running exactly when it was running and the key's directory can be made and `getFile` succeeds; once aborted, nothing changes; it records at most one more file |
| Reader.ExtractAbortIsFinal | index.ts:235-250 | once a directory or read failure has aborted extraction, no later key changes the outcome |
| Reader.ExtractCompletes | index.ts:227-258 | extraction runs to the end exactly when every key's directory can be made and every key resolves |
| Reader.ExtractFailures | index.ts:252-257 | when extraction runs to the end, the failed list is exactly the unwritable destinations in visit order, the written list is exactly the writable destinations with the bytes `getFile` returned for their keys in visit order, and every key is either written or failed |
| Reader.ExtractReport | index.ts:260-263 | extraction passes exactly when nothing aborted it and no file failed; an abort reports its own error, and otherwise the failed files are listed in one error; the written files are reported as written |
| Reader.ExtractWritesFetched | index.ts:243-254 | every file written is at `destinationDir + "/" + key` for a visited key, holds exactly what `getFile` returned for that key, and was writable |
| Reader.ExtractWritesAll | index.ts:228-256 | when extraction runs to the end, every key whose destination is writable was fetched and written there with the bytes `getFile` returned |
| Reader.ReadMain | index.ts:189 | reading the main data after the preload part gives the preload part followed by the main data, zero-padded to the entry length |
| Reader.Vpk.constructor | index.ts:125-128 | a new reader has its path, is not loaded, and has no header and an empty tree |
| Reader.Vpk.Load | index.ts:146-158 | the new header, tree, loaded flag and outcome are exactly those `LoadStep` computes from the old state and the directory file's bytes |
| Reader.Vpk.Files | index.ts:160-162 | lists exactly the keys of the tree, each once |
| Reader.Vpk.GetFile | index.ts:164-205 | returns exactly what `Fetch` specifies for the current header and tree (with no auto-load) |
| Reader.Vpk.Assemble | index.ts:171-198 | the buffer-filling reads return exactly what `Retrieve` specifies |
| Reader.Vpk.Extract | index.ts:207-264 | auto-loads when not loaded and fails if that load fails; fails if the destination directory cannot be made; otherwise the files written and the outcome are exactly `ExtractKeys` over the tree's keys in order; state changes only through the load |
| Reader.Vpk.ExtractFiles | index.ts:227-263 | the extraction loop writes and reports exactly what `ExtractKeys` specifies |
| Builder.Annotate | index.ts:333-355 | annotating keeps the number of files |
| Builder.SameSizes | index.ts:333-346 | files with the same entry and data sizes give the same totals |
| Builder.AnnotateKeepsFiles | index.ts:333-355 | every annotated file has its entry size and keeps its names, crc, size and path; the totals of entry sizes and data sizes are unchanged |
| Builder.SumData | index.ts:345 | the total data size `load` accumulates; `Builder.SumDataPrefix`, `Builder.SumDataFront` and `Builder.DataOffsetsTile` prove it is the sum of the file sizes, which the data offsets (index.ts lines 351-355) split into back-to-back stretches |
| Builder.SumDataPrefix | index.ts:352-355 | the running data offset never decreases and grows by each file's size |
| Builder.DataOffsetsTile | index.ts:351-355 | each file's data ends where the next file's begins, and the last one ends at the total data size |
| Builder.AnnotatedAt | index.ts:351-355 | file i's data offset is the total size of the files before it |
| Builder.DataBefore | index.ts:351-355 | an earlier file's data ends no later than where a later file's begins, which is within the total |
| Builder.DataOffsetsDisjoint | index.ts:351-355 | the data ranges of two different files never overlap and all lie within the total data size |
| Builder.KeptFiles | index.ts:375-378 | the files put in the tree are exactly the files the skip test keeps, and their entry sizes add up to no more than the total |
| Builder.Kept | index.ts:376 | a file put in the tree has a non-zero entry size and a data offset |
| Builder.SkipRulesDiffer | index.ts:376-378 | the test as written keeps exactly what the corrected test keeps minus the files at data offset 0; the files they disagree on are exactly the sized files at offset 0 |
| Builder.NameBytes | index.ts:335 | the three names with their zero bytes are the entry size minus the 20-byte record (with index.ts lines 380) |
| Builder.RecordBytes | index.ts:381-388 | the record after the names is exactly 20 bytes |
| Builder.EntryBytes | index.ts:380-388 | one file's entry is exactly its entry size |
| Builder.EntriesBytes | index.ts:375-391 | the entries laid end to end take exactly the sum of their entry sizes |
| Builder.EntrySize | index.ts:334-343 | the entry size `load` computes for a file: its three names with their zero bytes plus 20 bytes; `Builder.NameBytes` and `Builder.SumEntrySizesBound` prove it is the length of the names written plus the record, and at least 23 |
| Builder.SumEntrySizes | index.ts:344 | the tree size before the final zero byte; `Builder.SumEntrySizesBound` proves it is at least 23 per file and zero only for no files, `Builder.SumEntrySizesPrefix` that a prefix of the files takes no more |
| Builder.SumEntrySizesPrefix | index.ts:333-346 | the entries before any file take no more than all of them |
| Builder.SumEntrySizesBound | index.ts:334-346 | every entry takes at least 23 bytes (three zero bytes and the 20-byte record), so the sum of entry sizes is at least 23 per file and is zero only for no files |
| Builder.HeaderBytes | index.ts:367-370 | the header is exactly `HEADER_1_LENGTH` (12) bytes |
| Builder.TreeImage | index.ts:373-392 | the tree buffer is exactly the tree size |
| Builder.SavedLength | index.ts:397-401 | when every file is present with its size, appending reads them all and adds exactly the total data size |
| Builder.SumDataFront | index.ts:345 | the total data size is the first file's size plus the rest |
| Builder.WriteBytes | index.ts:380 | writing bytes into the buffer at an offset overlays them there and changes nothing else |
| Builder.WriteRecord | index.ts:381-388 | the record writes at `relOff` leave the 20 record bytes there and change nothing else |
| Builder.WithEntrySizes | index.ts:333-346 | sizing keeps the number of files |
| Builder.WithOffsets | index.ts:351-355 | assigning offsets keeps the number of files |
| Builder.SizeEntries | index.ts:333-346 | the sizing loop sets every file's entry size in place and returns the sums of entry sizes and data sizes |
| Builder.AssignOffsets | index.ts:351-355 | the offset loop sets every file's data offset in place to the running sum |
| Builder.AnnotateFiles | index.ts:324-359 | the two in-place passes produce the annotated files, the sum of entry sizes and the total data size |
| Builder.AnnotateInTwoPasses | index.ts:333-355 | sizing every entry and then assigning offsets gives each file its entry size and the data size of the files before it |
| Builder.AppendFiles | index.ts:398-401 | appending adds the contents of every file in order, and stops with an I/O error at the first file that cannot be read |
| Builder.AppendData | index.ts:398-401 | the file that stops appending is one the file system does not have |
| Builder.AppendDataStops | index.ts:398-401 | appending stops exactly when some file is missing, and then at the first missing file, every file before it being present |
| Builder.SaveResult | index.ts:365-402 | nothing is written exactly when the tree size or a kept value does not fit 32 bits or the destination cannot be written, and then the save fails; otherwise the header and at least the whole tree are written, and the save passes exactly when every file is read |
| Builder.WriteEntry | index.ts:380-390 | one file's names and record are written at the running offset and nothing else changes |
| Builder.KeptStep | index.ts:375-391 | one more file extends the kept files, and the encoded entries, by that file exactly when the skip test keeps it |
| Builder.TreeImageStep | index.ts:375-391 | one loop iteration either writes the kept file's entry at the running offset, the sum of the kept entries before it, and advances the offset by its entry size, or leaves buffer and offset alone |
| Builder.Creator.constructor | index.ts:296-299 | a new creator has its root, is not loaded, and has no files and zero totals |
| Builder.Creator.Load | index.ts:316-363 | a version other than 1 fails with nothing changed; an invalid root changes nothing; otherwise the tree is the scanned files annotated in order, the tree size is the sum of entry sizes plus 1, the total data is the sum of data sizes, and the total size is 12 plus the tree size |
| Builder.Creator.Save | index.ts:365-402 | what is written to the destination and the outcome are exactly `SaveResult` for the given skip rule; with `AsWritten`, the test the source applies, this is the source's `save`, and `Intended` is the corrected test: nothing is written when a value does not fit 32 bits or the destination cannot be written; otherwise the header, the tree and the data of every file are written, and the outcome reports the first file that cannot be read |
| Builder.WriteTree | index.ts:373-392 | the filled tree buffer, with the files kept by the given skip rule (`AsWritten` as in the source, `Intended` corrected), is the image of the kept entries followed by zeros, or an out-of-range failure when a kept file's offset or size does not fit 32 bits |
| RoundTrip.ToBytesConcat | index.ts:380 | encoding a concatenation encodes its parts one after the other |
| RoundTrip.NameBytesParts | index.ts:380 | the names are written as extension, directory and name, each followed by a zero byte |
| RoundTrip.ReadKnownString | index.ts:66 | a zero-free string written with its terminator reads back as itself (with index.ts lines 380) |
| RoundTrip.ReadEmptyString | index.ts:68 | a zero byte reads as the empty string that ends a list (with index.ts lines 75, 82) |
| RoundTrip.NamesAt | index.ts:380 | the three names of an entry lie one after the other |
| RoundTrip.Read16 | index.ts:383-387 | a 16-bit value written by the builder reads back as itself |
| RoundTrip.Read32 | index.ts:382-386 | a 32-bit value written by the builder reads back as itself |
| RoundTrip.RecordReads | index.ts:381-388 | the record the builder writes reads back as crc, no preload, archive 0x7FFF, the data offset and the size, with the preload offset right after the terminator; the two zero bytes follow it (with index.ts lines 43-56) |
| RoundTrip.StepExtension | index.ts:66-72 | a non-empty extension opens its directory list |
| RoundTrip.StepDirectory | index.ts:73-79 | a non-empty directory opens its name list |
| RoundTrip.StepName | index.ts:80-102 | a non-empty name with a record stores that record under its key and continues the name list |
| RoundTrip.StepEndNames | index.ts:82-84 | a zero byte ends the name list |
| RoundTrip.StepEndDirectories | index.ts:75-77 | a zero byte ends the directory list |
| RoundTrip.NamesRead | index.ts:66-84 | the builder's three names read back as the extension, the directory and the name (with index.ts lines 380) |
| RoundTrip.NameSteps | index.ts:65-102 | an extension, a directory and a name, then a record, store the record under the key |
| RoundTrip.CloseSteps | index.ts:75-84 | the builder's two trailing zero bytes close the name list and the directory list (with index.ts lines 388) |
| RoundTrip.EntryReads | index.ts:380-388 | one builder entry reads back as its three names and its record, and ends with two zero bytes within its entry size (with index.ts lines 61-102) |
| RoundTrip.ParseEntry | index.ts:380-390 | the tree reader consumes one builder entry exactly and stores its record under the file's key (with index.ts lines 61-102) |
| RoundTrip.SumEntrySizesFront | index.ts:333-346 | the entry sizes add up as the first one plus the rest |
| RoundTrip.EntriesBytesRest | index.ts:375-391 | the entries after the first, split at their last one |
| RoundTrip.EntriesBytesStep | index.ts:375-391 | the entries laid end to end start with the first file's entry |
| RoundTrip.EntriesBytesFront | index.ts:375-391 | the entries laid end to end are the first entry followed by the rest |
| RoundTrip.EntriesLaid | index.ts:375-391 | the entries written end to end lie each at the running sum of the entry sizes before it |
| RoundTrip.ParseEntryTo | index.ts:61-102 | the tree reader reads one builder entry, ending at the given position |
| RoundTrip.ParseFirst | index.ts:61-102 | reading the first entry and then the rest reads all the entries |
| RoundTrip.ParseLaid | index.ts:61-108 | the tree reader reads a run of builder entries exactly, storing each file's record under its key in order (with index.ts lines 375-391) |
| RoundTrip.PutAll | index.ts:102 | the tree the reader builds from a run of entries; `RoundTrip.PutAllFinds` proves each file with its own key is found with its record, `RoundTrip.PutAllMisses` that other keys are untouched, `RoundTrip.PutAllKeys` and `RoundTrip.PutAllKeepsOrder` that keys are only appended, at most one per file |
| RoundTrip.PutAllMisses | index.ts:102 | storing files under other keys does not add or change a key |
| RoundTrip.PutAllFinds | index.ts:102 | after storing files with distinct keys, each file's key holds that file's record, at a preload offset past the start |
| RoundTrip.PutAllKeys | index.ts:102 | storing the entries of a run of files adds at most one key per file and removes none |
| RoundTrip.PutAllKeepsOrder | index.ts:102 | storing entries only appends keys: the keys already there stay first, in their order |
| RoundTrip.HeaderReads | index.ts:367-370 | the header the builder writes reads back as version 1 with the written tree size and no version-2 fields, consuming 12 bytes (with index.ts lines 16-27) |
| RoundTrip.SavedArchiveLoads | index.ts:365-394 | loading a file that starts with the builder's header and tree succeeds, with that header and exactly the kept files' records under their keys (with index.ts lines 146-158) |
| RoundTrip.SavedBytes | index.ts:367-392 | in a saved file the header is at 0, the entries follow it, and a zero byte follows them |
| RoundTrip.ThreeParts | index.ts:394-400 | the three parts of a saved file lie one after the other |
| RoundTrip.DataAt | index.ts:398-401 | file j's contents are appended at the total size of the files before it |
| RoundTrip.FetchWritten | index.ts:179-189 | a directory-file record for a file whose contents sit at header + tree size + data offset, with a matching checksum, returns exactly those contents |
| RoundTrip.AnnotatedFile | index.ts:333-355 | each annotated file is encodable, carries its entry size, keeps the scanned file's key and path, and sits at the data size of the files before it |
| RoundTrip.AnnotatedPrefixData | index.ts:351-355 | the files before an annotated file have the same total data size as the scanned ones |
| RoundTrip.SaveWrites | index.ts:365-401 | when every value fits and every file is present, a save writes the header, the tree image and the data of every file and passes |
| RoundTrip.KeptFinds | index.ts:375-391 | in the tree read back, every kept file's key holds that file's record (with index.ts lines 102) |
| RoundTrip.Written | index.ts:394 | after the save the destination holds the saved bytes |
| RoundTrip.KeptFileFetched | index.ts:164-205 | `getFile` of a kept file in the saved archive returns the file's contents (with index.ts lines 365-401) |
| RoundTrip.FetchSaved | index.ts:179-189 | a record with data offset `offset` in an archive made of header, tree and data returns the bytes at `offset` of the data (with index.ts lines 394-400) |
| RoundTrip.SavedLoads | index.ts:365-401 | a save passes, and loading the saved file succeeds with the saved header and the kept files' records (with index.ts lines 146-158) |
| RoundTrip.AnnotatedOffsets | index.ts:351-355 | each annotated file keeps its key and path, and its offset is the data size of the annotated files before it |
| RoundTrip.AnnotatedStored | index.ts:333-355 | every annotated file is encodable, carries its entry size and is stored with its size and checksum |
| RoundTrip.AnnotatedKeysDistinct | index.ts:333-355 | annotating keeps the keys distinct |
| RoundTrip.LoadedTreeReady | index.ts:316-363 | the tree `load` builds from a packable directory is ready to save, with tree size the sum of entry sizes plus 1, and keeps every file's key and path |
| RoundTrip.SavedFileReads | index.ts:365-401 | saving, loading the saved file and `getFile` of any file the skip rule keeps returns that file's original contents, under the saved header (with index.ts lines 146-205) |
| RoundTrip.UnkeptMisses | index.ts:375-378 | a file the skip rule drops has no key in the tree read back |
| RoundTrip.SavedFileMissing | index.ts:375-378 | saving, loading and `getFile` of a dropped file fails with "No such file", although the save passed (with index.ts lines 164-169) |
| RoundTrip.FirstFileDropped | index.ts:376-378 | with the skip test as written, the first file of any non-empty directory cannot be read back from the saved archive |
| RoundTrip.EveryFileReads | index.ts:365-401 | with the corrected skip test, every file of the directory reads back from the saved archive with its original contents (with index.ts lines 146-205) |

The predicate `RoundTrip.At` and the lemmas `RoundTrip.AtSlice`, `RoundTrip.AtConcat`, `RoundTrip.AtShift`, `RoundTrip.AtFront`, `RoundTrip.AtByte`, `RoundTrip.ConcatRegroup`, `Reader.TenthOfTenth` and `Reader.LastThree` are proof helpers about sequences and numbers; they model nothing of the library.

## Left out

- File-system calls (`openSync`, `readSync`, `readFileSync`, `writeFileSync`, `appendFileSync`, `existsSync`, `mkdirSync`, `statSync`) are a `FileSystem` value. Writes are returned or reported; they do not change what later reads see. File handles that are opened and never closed are not modelled.
- `crc.crc32` is the parameter `crc32`; the checksum algorithm itself is not modelled.
- The `jbinary` library is replaced by a cursor over bytes. A `string0` read with no zero byte before the end is a failure (`OutOfBounds`). A preload skip past the end is a failure too.
- `VPK.isValid` (index.ts:130-144) is not modelled. It decodes the header through `toString()`, which changes the bytes, and it is never called by the rest of the library.
- `listFiles` (index.ts:267-286) and `VPKcreator.isValid` (index.ts:301-310) walk and stat the disk. Their results are the `scan` and `isDirectory` parameters of `Creator.Load`.
- `console.log` (index.ts:17), the empty `write` stubs (index.ts:38, 58, 109) and the unused `data` buffer (index.ts:397) have no effect and are not modelled.
- The builder writes names one byte per character (`ToBytes`). `tree.write` writes UTF-8 while the entry is sized by `.length` (index.ts:335), so the two agree only for ASCII names (`Bytes.Utf8Length`). The overrun a non-ASCII name causes, where the record overwrites the end of the names, is not modelled; the round-trip lemmas require ASCII names (`NulFree`).
- Bytes.CharsOfBytes: holds for every character below 0x100, the reader's one-byte decoding, but the builder's write matches `tree.write` only below 0x80, so the write side of the round trip is stated for ASCII names only.
- `Object.keys` lists integer-like keys first; `Reader.Vpk.Files` keeps insertion order for every key. The key `__proto__` is an ordinary key in the model.
- The final `tree.write("\0", this.treeSize)` (index.ts:392) is at the end of the buffer and writes nothing; the last zero byte of the tree comes from the zero-filled buffer.
- Builder.Creator.Save: a value that does not fit 32 bits (`writeUInt32LE` throws) fails before anything is written. In the source, the header is built before the tree, so a tree size that is too large fails first too; both give the same outcome.
- RoundTrip.SavedFileReads: the round trip is proved only for files whose extension, directory and name are non-empty and zero-free, with distinct keys. An empty name ends its list early when read back, so such files cannot be read back.
- RoundTrip.Written: the model states only the destination's new contents. It does not state that the other files are unchanged. The round-trip lemmas do not need that.
- The version-2 builder and `HEADER_2_LENGTH` in the builder are not modelled, because `load` accepts only version 1.

## Findings

| source | as written | input that shows it | evidently intended | confidence | as-written member | corrected member |
|---|---|---|---|---|---|---|
| index.ts:376-378 | `if (!file.entrySize \|\| !file.dataOffset) return;` also skips a file whose data offset is 0. That is always the first file, and any file that comes after only empty files. Its data is still appended, but it has no tree entry. | Any directory with at least one file: save it, load the saved archive, then `getFile` its first file's key. The result is "No such file in tree". | Skip only files whose entry size or data offset is missing, so that every file is in the tree. | not executed | RoundTrip.FirstFileDropped | RoundTrip.EveryFileReads |
