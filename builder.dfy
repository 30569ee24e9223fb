/** The archive writer, class `VPKcreator` (index.ts:288-403): sizing the
    entries of the scanned files, then writing the header, the tree and the
    data of a single-file version-1 archive. */
module Builder {
  import opened Bytes
  import opened Types
  import opened Codec
  import Reader

  /** The bytes of an entry after its three names: the 18-byte record and
      the two zero bytes that close the name and directory lists. */
  const RECORD_TAIL: nat := 20

  // ---------------------------------------------------------------------
  // Sizes and offsets

  /** The size `load` computes for a file's tree entry. */
  function EntrySize(f: FileData): nat
  {
    (|f.location| + 1) + (|f.name| + 1) + (|f.extension| + 1) + 4 + 2 + 2 + 4 + 4 + 2 + 2
  }

  function SumEntrySizes(files: seq<FileData>): (total: nat)
  {
    if files == [] then 0 else SumEntrySizes(files[..|files| - 1]) + EntrySize(files[|files| - 1])
  }

  /** Every entry takes at least 23 bytes (three zero bytes and the 20-byte
      record), so the entries of a non-empty list never take 0 bytes. */
  lemma {:induction false} SumEntrySizesBound(files: seq<FileData>)
    ensures SumEntrySizes(files) >= 23 * |files|
    ensures SumEntrySizes(files) == 0 <==> files == []
    decreases |files|
  {
    if files != [] {
      SumEntrySizesBound(files[..|files| - 1]);
    }
  }

  function SumData(files: seq<FileData>): nat
  {
    if files == [] then 0 else SumData(files[..|files| - 1]) + files[|files| - 1].dataSize
  }

  /** A file with its entry size filled in. */
  function WithEntrySize(f: FileData): FileData
  {
    f.(entrySize := Some(EntrySize(f)))
  }

  /** A file with its entry size and data offset filled in. */
  function Annotated(f: FileData, offset: nat): FileData
  {
    WithEntrySize(f).(dataOffset := Some(offset))
  }

  /** The files as `load` leaves them: each with its entry size, and with its
      data offset the total size of the files before it. */
  function Annotate(scan: seq<FileData>): (files: seq<FileData>)
    ensures |files| == |scan|
  {
    seq(|scan|, i requires 0 <= i < |scan| => Annotated(scan[i], SumData(scan[..i])))
  }

  /** Every file carries the entry size of its names. */
  ghost predicate Sized(files: seq<FileData>)
  {
    forall f | f in files :: f.entrySize == Some(EntrySize(f))
  }

  lemma {:induction false} SameSizes(a: seq<FileData>, b: seq<FileData>)
    requires |a| == |b|
    requires forall i | 0 <= i < |a| :: EntrySize(a[i]) == EntrySize(b[i]) && a[i].dataSize == b[i].dataSize
    ensures SumEntrySizes(a) == SumEntrySizes(b) && SumData(a) == SumData(b)
    decreases |a|
  {
    if a != [] {
      SameSizes(a[..|a| - 1], b[..|b| - 1]);
    }
  }

  /** Annotating keeps every file's names, checksum, size and path, gives it
      its entry size, and keeps the totals. */
  lemma AnnotateKeepsFiles(scan: seq<FileData>)
    ensures Sized(Annotate(scan))
    ensures forall i | 0 <= i < |scan| ::
      var f := Annotate(scan)[i];
      && f.location == scan[i].location && f.name == scan[i].name && f.extension == scan[i].extension
      && f.crc == scan[i].crc && f.dataSize == scan[i].dataSize && f.fullPath == scan[i].fullPath
    ensures SumEntrySizes(Annotate(scan)) == SumEntrySizes(scan)
    ensures SumData(Annotate(scan)) == SumData(scan)
  {
    var files := Annotate(scan);
    forall i | 0 <= i < |scan|
      ensures files[i] == Annotated(scan[i], SumData(scan[..i]))
      ensures EntrySize(files[i]) == EntrySize(scan[i]) && files[i].dataSize == scan[i].dataSize
    {
    }
    SameSizes(files, scan);
  }

  lemma {:induction false} SumDataPrefix(files: seq<FileData>, i: nat, j: nat)
    requires i <= j <= |files|
    ensures SumData(files[..i]) <= SumData(files[..j])
    ensures j == i + 1 ==> SumData(files[..j]) == SumData(files[..i]) + files[i].dataSize
    decreases j
  {
    if i < j {
      assert files[..j][..j - 1] == files[..j - 1];
      SumDataPrefix(files, i, j - 1);
    }
  }

  /** The data offsets lay the files end to end: each file's data ends where
      the next one's begins, and the last one ends at the total. */
  lemma DataOffsetsTile(scan: seq<FileData>, i: nat)
    requires i < |scan|
    ensures var files := Annotate(scan);
      files[i].dataOffset.value + files[i].dataSize ==
        if i + 1 < |scan| then files[i + 1].dataOffset.value else SumData(scan)
  {
    var files := Annotate(scan);
    assert files[i] == Annotated(scan[i], SumData(scan[..i]));
    if i + 1 < |scan| {
      assert files[i + 1] == Annotated(scan[i + 1], SumData(scan[..i + 1]));
    }
    SumDataPrefix(scan, i, i + 1);
    if i + 1 == |scan| {
      assert scan[..i + 1] == scan;
    }
  }

  /** Where `load` puts a file's data: after all the files before it. */
  lemma AnnotatedAt(scan: seq<FileData>, i: nat)
    requires i < |scan|
    ensures Annotate(scan)[i].dataOffset == Some(SumData(scan[..i]))
    ensures Annotate(scan)[i].dataSize == scan[i].dataSize
  {
  }

  lemma {:induction false} DataBefore(scan: seq<FileData>, i: nat, j: nat)
    requires i < j < |scan|
    ensures SumData(scan[..i]) + scan[i].dataSize <= SumData(scan[..j])
    ensures SumData(scan[..j]) + scan[j].dataSize <= SumData(scan)
  {
    SumDataPrefix(scan, i, i + 1);
    SumDataPrefix(scan, i + 1, j);
    SumDataPrefix(scan, j, j + 1);
    SumDataPrefix(scan, j + 1, |scan|);
    assert scan[..|scan|] == scan;
  }

  /** So no two files' data overlap, and all of it lies within the total. */
  lemma DataOffsetsDisjoint(scan: seq<FileData>, i: nat, j: nat)
    requires i < j < |scan|
    ensures var files := Annotate(scan);
      files[i].dataOffset.value + files[i].dataSize <= files[j].dataOffset.value &&
      files[j].dataOffset.value + files[j].dataSize <= SumData(scan)
  {
    DataBefore(scan, i, j);
    AnnotatedAt(scan, i);
    AnnotatedAt(scan, j);
  }

  // ---------------------------------------------------------------------
  // The bytes `save` writes

  /** Which files `save` puts in the tree: as written, a file whose entry
      size or data offset is missing or zero is left out, and so is the first
      file, whose data offset is 0; evidently only missing values were meant
      to be refused. */
  datatype SkipRule = AsWritten | Intended

  predicate Kept(f: FileData, rule: SkipRule)
    ensures Kept(f, rule) ==> f.entrySize.Some? && f.entrySize.value != 0 && f.dataOffset.Some?
  {
    && f.entrySize.Some? && f.entrySize.value != 0 && f.dataOffset.Some?
    && (rule == AsWritten ==> f.dataOffset.value != 0)
  }

  /** The test as written keeps exactly the files the corrected test keeps,
      except those at data offset 0; a sized, annotated file list always
      loses its first file that way. */
  lemma SkipRulesDiffer(f: FileData)
    ensures Kept(f, AsWritten) <==> Kept(f, Intended) && f.dataOffset != Some(0)
    ensures Kept(f, Intended) && !Kept(f, AsWritten) <==>
      f.entrySize.Some? && f.entrySize.value != 0 && f.dataOffset == Some(0)
  {
  }

  /** The files `save` puts in the tree, in order. */
  function KeptFiles(files: seq<FileData>, rule: SkipRule): (kept: seq<FileData>)
    ensures forall f | f in kept :: f in files && Kept(f, rule)
    ensures forall f | f in files && Kept(f, rule) :: f in kept
    ensures SumEntrySizes(kept) <= SumEntrySizes(files)
  {
    if files == [] then []
    else
      var init := KeptFiles(files[..|files| - 1], rule);
      assert files == files[..|files| - 1] + [files[|files| - 1]];
      if Kept(files[|files| - 1], rule) then
        assert (init + [files[|files| - 1]])[..|init|] == init;
        init + [files[|files| - 1]]
      else init
  }

  /** The two 32-bit fields `writeUInt32LE` must be able to store. */
  predicate Encodable(f: FileData)
  {
    f.dataOffset.Some? && f.dataOffset.value < U32_LIMIT && f.dataSize < U32_LIMIT
  }

  /** Extension, directory and name, each closed by a zero byte. */
  function NameBytes(f: FileData): (b: seq<u8>)
    ensures |b| + RECORD_TAIL == EntrySize(f)
  {
    ToBytes(f.extension + "\0" + f.location + "\0" + f.name + "\0")
  }

  /** The 18-byte record (checksum, no preload bytes, the data in the
      directory file at the file's data offset, its size, the terminator)
      and the two zero bytes. */
  function RecordBytes(f: FileData): (b: seq<u8>)
    requires Encodable(f)
    ensures |b| == RECORD_TAIL
  {
    LE32(f.crc) + LE16(0) + LE16(Reader.DIR_ARCHIVE) + LE32(f.dataOffset.value) + LE32(f.dataSize)
      + LE16(TERMINATOR) + [0, 0]
  }

  function EntryBytes(f: FileData): (b: seq<u8>)
    requires Encodable(f)
    ensures |b| == EntrySize(f)
  {
    NameBytes(f) + RecordBytes(f)
  }

  /** The entries of `files` one after the other. */
  function EntriesBytes(files: seq<FileData>): (b: seq<u8>)
    requires forall f | f in files :: Encodable(f)
    ensures |b| == SumEntrySizes(files)
  {
    if files == [] then []
    else EntriesBytes(files[..|files| - 1]) + EntryBytes(files[|files| - 1])
  }

  lemma {:induction false} SumEntrySizesPrefix(files: seq<FileData>, i: nat)
    requires i <= |files|
    ensures SumEntrySizes(files[..i]) <= SumEntrySizes(files)
    decreases |files| - i
  {
    if i < |files| {
      assert files[..i + 1][..i] == files[..i];
      SumEntrySizesPrefix(files, i + 1);
    } else {
      assert files[..i] == files;
    }
  }

  /** The signature, version 1 and the tree size, as `save` writes them. */
  function HeaderBytes(treeSize: u32): (b: seq<u8>)
    ensures |b| == HEADER_1_LENGTH
  {
    LE32(SIGNATURE) + LE32(1) + LE32(treeSize)
  }

  /** The contents of `files` appended one after the other, and the path of
      the first one that cannot be read, where appending stopped. */
  function AppendData(fs: Reader.FileSystem, files: seq<FileData>): (appended: (seq<u8>, Option<string>))
    ensures appended.1.Some? ==> appended.1.value !in fs.contents
  {
    if files == [] then ([], None)
    else if files[0].fullPath !in fs.contents then ([], Some(files[0].fullPath))
    else
      var (rest, missing) := AppendData(fs, files[1..]);
      (fs.contents[files[0].fullPath] + rest, missing)
  }

  /** Appending stops exactly when some file cannot be read, and then at the
      first such file, with the contents of the files before it appended. */
  lemma {:induction false} AppendDataStops(fs: Reader.FileSystem, files: seq<FileData>)
    ensures AppendData(fs, files).1.None? <==> forall f | f in files :: f.fullPath in fs.contents
    ensures AppendData(fs, files).1.Some? ==>
      exists i | 0 <= i < |files| ::
        && files[i].fullPath == AppendData(fs, files).1.value
        && forall j | 0 <= j < i :: files[j].fullPath in fs.contents
    decreases |files|
  {
    if files != [] && files[0].fullPath in fs.contents {
      var rest := files[1..];
      AppendDataStops(fs, rest);
      assert AppendData(fs, files).1 == AppendData(fs, rest).1;
      assert forall f | f in rest :: f in files;
      assert forall f | f in files :: f == files[0] || f in rest;
      if AppendData(fs, rest).1.Some? {
        var i :| 0 <= i < |rest| && rest[i].fullPath == AppendData(fs, rest).1.value
          && forall j | 0 <= j < i :: rest[j].fullPath in fs.contents;
        assert files[i + 1] == rest[i];
        forall j | 0 <= j < i + 1
          ensures files[j].fullPath in fs.contents
        {
          if j > 0 {
            assert files[j] == rest[j - 1];
          }
        }
      }
    } else if files != [] {
      assert files[0] in files;
    }
  }

  /** Every file `save` keeps has offset and size within 32 bits. */
  predicate AllEncodable(files: seq<FileData>, rule: SkipRule)
  {
    forall f | f in files :: Kept(f, rule) ==> Encodable(f)
  }

  /** The tree buffer `save` fills: the kept entries from offset 0 on, zeros
      after them up to the tree size. */
  function TreeImage(files: seq<FileData>, treeSize: nat, rule: SkipRule): (image: seq<u8>)
    requires SumEntrySizes(files) <= treeSize && AllEncodable(files, rule)
    ensures |image| == treeSize
  {
    Padded(EntriesBytes(KeptFiles(files, rule)), treeSize)
  }

  /** What `save` leaves in the destination file (None if it never wrote it)
      and how it ends. */
  function SaveResult(fs: Reader.FileSystem, destination: string, treeSize: nat, files: seq<FileData>, rule: SkipRule)
    : (saved: (Option<seq<u8>>, Outcome))
    requires SumEntrySizes(files) <= treeSize
    ensures saved.0.None? <==> treeSize >= U32_LIMIT || !AllEncodable(files, rule) || destination in fs.unwritable
    ensures saved.0.None? ==> saved.1.Fail?
    ensures saved.0.Some? ==> |saved.0.value| >= HEADER_1_LENGTH + treeSize
    ensures saved.0.Some? ==> (saved.1 == Pass <==> AppendData(fs, files).1.None?)
  {
    if treeSize >= U32_LIMIT || !AllEncodable(files, rule) then (None, Fail(ValueOutOfRange))
    else if destination in fs.unwritable then (None, Fail(IoFailure(destination)))
    else
      var (data, missing) := AppendData(fs, files);
      (Some(HeaderBytes(treeSize) + TreeImage(files, treeSize, rule) + data),
       if missing.Some? then Fail(IoFailure(missing.value)) else Pass)
  }

  /** A save that passes writes the header, the whole tree buffer, and the
      data of every file in order, taking up exactly the total data size. */
  lemma {:induction false} SavedLength(fs: Reader.FileSystem, files: seq<FileData>)
    requires forall f | f in files :: f.fullPath in fs.contents && |fs.contents[f.fullPath]| == f.dataSize
    ensures AppendData(fs, files).1 == None
    ensures |AppendData(fs, files).0| == SumData(files)
    decreases |files|
  {
    if files != [] {
      assert forall f | f in files[1..] :: f in files;
      SavedLength(fs, files[1..]);
      SumDataFront(files);
    }
  }

  lemma {:induction false} SumDataFront(files: seq<FileData>)
    requires files != []
    ensures SumData(files) == files[0].dataSize + SumData(files[1..])
    decreases |files|
  {
    if |files| > 1 {
      var init := files[..|files| - 1];
      SumDataFront(init);
      assert init[1..] == files[1..][..|files[1..]| - 1];
    }
  }

  // ---------------------------------------------------------------------
  // Buffer writes

  /** `buffer.write` / `writeUInt*LE`: `bytes` copied into `buf` at `at`. */
  method WriteBytes(buf: array<u8>, at: nat, bytes: seq<u8>)
    requires at + |bytes| <= buf.Length
    modifies buf
    ensures buf[..] == Overlay(old(buf[..]), at, bytes)
  {
    for i := 0 to |bytes|
      invariant forall j | 0 <= j < buf.Length :: buf[j] == if at <= j < at + i then bytes[j - at] else old(buf[j])
    {
      buf[at + i] := bytes[i];
    }
    assert buf[..] == Overlay(old(buf[..]), at, bytes);
  }

  /** The seven writes of a record, from `relOff` on. */
  method WriteRecord(buf: array<u8>, relOff: nat, f: FileData)
    requires Encodable(f) && relOff + RECORD_TAIL <= buf.Length
    modifies buf
    ensures buf[..] == Overlay(old(buf[..]), relOff, RecordBytes(f))
  {
    ghost var b := old(buf[..]);
    WriteBytes(buf, relOff, LE32(f.crc));
    ghost var w := LE32(f.crc);
    WriteBytes(buf, relOff + 4, LE16(0));
    OverlayTwice(b, relOff, w, LE16(0));
    w := w + LE16(0);
    WriteBytes(buf, relOff + 6, LE16(Reader.DIR_ARCHIVE));
    OverlayTwice(b, relOff, w, LE16(Reader.DIR_ARCHIVE));
    w := w + LE16(Reader.DIR_ARCHIVE);
    WriteBytes(buf, relOff + 8, LE32(f.dataOffset.value));
    OverlayTwice(b, relOff, w, LE32(f.dataOffset.value));
    w := w + LE32(f.dataOffset.value);
    WriteBytes(buf, relOff + 12, LE32(f.dataSize));
    OverlayTwice(b, relOff, w, LE32(f.dataSize));
    w := w + LE32(f.dataSize);
    WriteBytes(buf, relOff + 16, LE16(TERMINATOR));
    OverlayTwice(b, relOff, w, LE16(TERMINATOR));
    w := w + LE16(TERMINATOR);
    WriteBytes(buf, relOff + 18, [0, 0]);
    OverlayTwice(b, relOff, w, [0, 0]);
  }

  /** The files after the first pass of `load`. */
  function WithEntrySizes(files: seq<FileData>): (sized: seq<FileData>)
    ensures |sized| == |files|
  {
    seq(|files|, j requires 0 <= j < |files| => WithEntrySize(files[j]))
  }

  /** The files after the second pass of `load`. */
  function WithOffsets(files: seq<FileData>): (placed: seq<FileData>)
    ensures |placed| == |files|
  {
    seq(|files|, j requires 0 <= j < |files| => files[j].(dataOffset := Some(SumData(files[..j]))))
  }

  /** The first pass of `load`: each file's entry size, in place, while
      summing the entry sizes and the data sizes. */
  method SizeEntries(files: array<FileData>) returns (size: nat, total: nat)
    modifies files
    ensures files[..] == WithEntrySizes(old(files[..]))
    ensures size == SumEntrySizes(old(files[..])) && total == SumData(old(files[..]))
  {
    ghost var orig := files[..];
    size, total := 0, 0;
    for i := 0 to files.Length
      invariant forall j | 0 <= j < i :: files[j] == WithEntrySize(orig[j])
      invariant forall j | i <= j < files.Length :: files[j] == orig[j]
      invariant size == SumEntrySizes(orig[..i]) && total == SumData(orig[..i])
    {
      assert orig[..i + 1][..i] == orig[..i];
      var entrySize := (|files[i].location| + 1) + (|files[i].name| + 1) + (|files[i].extension| + 1);
      entrySize := entrySize + 4 + 2 + 2 + 4 + 4 + 2 + 2;
      files[i] := files[i].(entrySize := Some(entrySize));
      size := size + entrySize;
      total := total + files[i].dataSize;
    }
    assert orig[..files.Length] == orig;
    assert files[..] == WithEntrySizes(orig);
  }

  /** The second pass of `load`: each file's data offset, in place, the
      running total of the sizes before it. */
  method AssignOffsets(files: array<FileData>)
    modifies files
    ensures files[..] == WithOffsets(old(files[..]))
  {
    ghost var orig := files[..];
    var offset := 0;
    for i := 0 to files.Length
      invariant forall j | 0 <= j < i :: files[j] == orig[j].(dataOffset := Some(SumData(orig[..j])))
      invariant forall j | i <= j < files.Length :: files[j] == orig[j]
      invariant offset == SumData(orig[..i])
    {
      assert orig[..i + 1][..i] == orig[..i];
      files[i] := files[i].(dataOffset := Some(offset));
      offset := offset + files[i].dataSize;
    }
    assert files[..] == WithOffsets(orig);
  }

  /** Both passes of `load` over a copy of the scanned files: the files
      annotated, the total entry size and the total data size. */
  method AnnotateFiles(scan: seq<FileData>) returns (tree: seq<FileData>, size: nat, total: nat)
    ensures tree == Annotate(scan)
    ensures size == SumEntrySizes(scan) && total == SumData(scan)
  {
    var files := new FileData[|scan|](i requires 0 <= i < |scan| => scan[i]);
    assert files[..] == scan;
    size, total := SizeEntries(files);
    AssignOffsets(files);
    AnnotateInTwoPasses(scan);
    tree := files[..];
  }

  /** The two passes together give `Annotate`. */
  lemma AnnotateInTwoPasses(scan: seq<FileData>)
    ensures WithOffsets(WithEntrySizes(scan)) == Annotate(scan)
  {
    var sized := WithEntrySizes(scan);
    forall j | 0 <= j < |scan|
      ensures WithOffsets(sized)[j] == Annotate(scan)[j]
    {
      SameSizes(sized[..j], scan[..j]);
    }
  }

  /** The data part of `save`: the contents of every file appended in turn
      to what the destination holds; a file that cannot be read stops it. */
  method AppendFiles(fs: Reader.FileSystem, out: seq<u8>, files: seq<FileData>) returns (result: seq<u8>, r: Outcome)
    ensures result == out + AppendData(fs, files).0
    ensures r == if AppendData(fs, files).1.Some? then Fail(IoFailure(AppendData(fs, files).1.value)) else Pass
  {
    result := out;
    for i := 0 to |files|
      invariant AppendData(fs, files[i..]).1 == AppendData(fs, files).1
      invariant result + AppendData(fs, files[i..]).0 == out + AppendData(fs, files).0
    {
      assert files[i..][1..] == files[i + 1..];
      if files[i].fullPath !in fs.contents {
        return result, Fail(IoFailure(files[i].fullPath));
      }
      result := result + fs.contents[files[i].fullPath];
    }
    assert files[|files|..] == [];
    return result, Pass;
  }

  /** One entry of the tree loop of `save`: the three names at `offset`, the
      record in the last 20 bytes of the entry. */
  method WriteEntry(buf: array<u8>, offset: nat, f: FileData)
    requires Encodable(f) && f.entrySize == Some(EntrySize(f)) && offset + EntrySize(f) <= buf.Length
    modifies buf
    ensures buf[..] == Overlay(old(buf[..]), offset, EntryBytes(f))
  {
    WriteBytes(buf, offset, NameBytes(f));
    var relOff := offset + f.entrySize.value - RECORD_TAIL;
    WriteRecord(buf, relOff, f);
    OverlayTwice(old(buf[..]), offset, NameBytes(f), RecordBytes(f));
  }

  /** The tree loop of `save` one file further. */
  lemma KeptStep(files: seq<FileData>, i: nat, rule: SkipRule)
    requires i < |files|
    ensures KeptFiles(files[..i + 1], rule) == KeptFiles(files[..i], rule) + if Kept(files[i], rule) then [files[i]] else []
    ensures AllEncodable(files[..i + 1], rule) <==>
            AllEncodable(files[..i], rule) && (Kept(files[i], rule) ==> Encodable(files[i]))
    ensures AllEncodable(files[..i + 1], rule) ==>
      EntriesBytes(KeptFiles(files[..i + 1], rule)) ==
        EntriesBytes(KeptFiles(files[..i], rule)) + if Kept(files[i], rule) then EntryBytes(files[i]) else []
  {
    assert files[..i + 1][..i] == files[..i];
    assert files[..i + 1] == files[..i] + [files[i]];
    if Kept(files[i], rule) && AllEncodable(files[..i + 1], rule) {
      var init := KeptFiles(files[..i], rule);
      assert (init + [files[i]])[..|init|] == init;
    }
  }

  /** The tree buffer one file further: a kept file's entry written at the
      end of the entries so far, any other file changing nothing. */
  lemma TreeImageStep(files: seq<FileData>, i: nat, treeSize: nat, rule: SkipRule)
    requires i < |files| && Sized(files) && SumEntrySizes(files) <= treeSize
    requires AllEncodable(files[..i], rule)
    ensures SumEntrySizes(files[..i]) <= SumEntrySizes(files)
    ensures SumEntrySizes(files[..i + 1]) <= SumEntrySizes(files)
    ensures AllEncodable(files[..i + 1], rule) <==> Kept(files[i], rule) ==> Encodable(files[i])
    ensures Kept(files[i], rule) ==> files[i] in files && files[i].entrySize == Some(EntrySize(files[i]))
    ensures AllEncodable(files[..i + 1], rule) ==>
      var offset := SumEntrySizes(KeptFiles(files[..i], rule));
      if Kept(files[i], rule) then
        && offset + EntrySize(files[i]) <= treeSize
        && SumEntrySizes(KeptFiles(files[..i + 1], rule)) == offset + EntrySize(files[i])
        && TreeImage(files[..i + 1], treeSize, rule) ==
             Overlay(TreeImage(files[..i], treeSize, rule), offset, EntryBytes(files[i]))
      else
        && KeptFiles(files[..i + 1], rule) == KeptFiles(files[..i], rule)
        && TreeImage(files[..i + 1], treeSize, rule) == TreeImage(files[..i], treeSize, rule)
  {
    KeptStep(files, i, rule);
    SumEntrySizesPrefix(files, i);
    SumEntrySizesPrefix(files, i + 1);
    assert files[i] in files;
    if AllEncodable(files[..i + 1], rule) && Kept(files[i], rule) {
      var before := EntriesBytes(KeptFiles(files[..i], rule));
      OverlayPadded(before, EntryBytes(files[i]), treeSize);
    }
  }

  /** The tree part of `save`: a zeroed buffer of the tree size, each kept
      file's names written at the running offset and its record in the
      last 20 bytes of its entry. The final `write("\0", treeSize)` is at
      the very end of the buffer and writes nothing. */
  method WriteTree(tree: seq<FileData>, treeSize: nat, rule: SkipRule) returns (r: Result<seq<u8>>)
    requires Sized(tree) && SumEntrySizes(tree) <= treeSize < U32_LIMIT
    ensures !AllEncodable(tree, rule) ==> r == Failure(ValueOutOfRange)
    ensures AllEncodable(tree, rule) ==> r == Success(TreeImage(tree, treeSize, rule))
  {
    var buf := new u8[treeSize](_ => 0);
    var offset := 0;
    for i := 0 to |tree|
      invariant AllEncodable(tree[..i], rule)
      invariant SumEntrySizes(tree[..i]) <= SumEntrySizes(tree)
      invariant offset == SumEntrySizes(KeptFiles(tree[..i], rule))
      invariant buf[..] == TreeImage(tree[..i], treeSize, rule)
    {
      TreeImageStep(tree, i, treeSize, rule);
      var f := tree[i];
      var skipped := f.entrySize.None? || f.entrySize.value == 0 || f.dataOffset.None?
        || (rule == AsWritten && f.dataOffset.value == 0);
      if !skipped {
        if f.dataOffset.value >= U32_LIMIT || f.dataSize >= U32_LIMIT {
          assert f in tree;
          return Failure(ValueOutOfRange);
        }
        WriteEntry(buf, offset, f);
        offset := offset + f.entrySize.value;
      }
    }
    assert tree[..|tree|] == tree;
    return Success(buf[..]);
  }

  // ---------------------------------------------------------------------
  // The creator object

  class Creator {
    const root: string
    var loaded: bool
    var totalData: nat
    var totalSize: nat
    var treeSize: nat
    var tree: seq<FileData>

    /** Every file carries its entry size, and the tree size counts them all
        and the final zero byte. */
    ghost predicate Valid()
      reads this
    {
      && Sized(tree)
      && (loaded ==> treeSize == SumEntrySizes(tree) + 1)
      && (!loaded ==> tree == [] && treeSize == 0)
    }

    /** `new VPKcreator(directory)`. */
    constructor (directory: string)
      ensures Valid()
      ensures root == directory && !loaded && tree == []
      ensures totalData == 0 && totalSize == 0 && treeSize == 0
    {
      root := directory;
      loaded := false;
      totalData := 0;
      totalSize := 0;
      treeSize := 0;
      tree := [];
    }

    /** `load(version)`: `isDirectory` is what `isValid` finds for the root
        and `scan` what `listFiles` returns for it. The entries are sized and
        then given their data offsets, in place. */
    method Load(version: int, isDirectory: bool, scan: seq<FileData>) returns (r: Outcome)
      requires Valid()
      modifies this
      ensures Valid()
      ensures version != 1 ==> r == Fail(VersionNotSupported) && unchanged(this)
      ensures version == 1 ==> r == Pass
      ensures version == 1 && !isDirectory ==> unchanged(this)
      ensures version == 1 && isDirectory ==>
        && loaded && tree == Annotate(scan)
        && treeSize == SumEntrySizes(scan) + 1
        && totalData == SumData(scan)
        && totalSize == HEADER_1_LENGTH + treeSize
    {
      if version != 1 {
        return Fail(VersionNotSupported);
      }
      if !isDirectory {
        return Pass;
      }
      var files, size, total := AnnotateFiles(scan);
      totalData := total;
      size := size + 1;
      totalSize := HEADER_1_LENGTH + size;
      treeSize := size;
      tree := files;
      loaded := true;
      AnnotateKeepsFiles(scan);
      return Pass;
    }

    /** `save(destination)`: the header, the tree buffer filled entry by
        entry, one write of both, then the contents of every file appended.
        With `AsWritten` the tree drops every file whose entry size or data
        offset is missing or zero, as the code does (and so the first file);
        with `Intended` it drops only files with a missing value. */
    method Save(fs: Reader.FileSystem, destination: string, rule: SkipRule) returns (output: Option<seq<u8>>, r: Outcome)
      requires Valid()
      ensures (output, r) == SaveResult(fs, destination, treeSize, tree, rule)
    {
      if treeSize >= U32_LIMIT {
        return None, Fail(ValueOutOfRange);
      }
      var header := new u8[HEADER_1_LENGTH];
      WriteBytes(header, 0, LE32(SIGNATURE));
      WriteBytes(header, 4, LE32(1));
      WriteBytes(header, 8, LE32(treeSize));
      assert header[..] == HeaderBytes(treeSize);
      var image := WriteTree(tree, treeSize, rule);
      if image.Failure? {
        return None, Fail(image.error);
      }
      if destination in fs.unwritable {
        return None, Fail(IoFailure(destination));
      }
      var out;
      out, r := AppendFiles(fs, header[..] + image.value, tree);
      return Some(out), r;
    }
  }
}
