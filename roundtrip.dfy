/** What the reader (index.ts:12-265) makes of an archive the builder
    (index.ts:288-403) saved: the header and the tree parse back to the
    saved files, every saved file's bytes come back unchanged, and, as the
    builder is written, the first file is missing from the tree. */
module RoundTrip {
  import opened Bytes
  import opened Types
  import opened Codec
  import opened Reader
  import opened Builder

  // ---------------------------------------------------------------------
  // Bytes at a position

  /** `data` holds `b` from index `pos` on, stated byte by byte so that a
      proof sees only the bytes it asks for. */
  predicate At(data: seq<u8>, pos: nat, b: seq<u8>)
    ensures At(data, pos, b) ==> pos + |b| <= |data|
    decreases |b|
  {
    if b == [] then pos <= |data|
    else pos < |data| && data[pos] == b[0] && At(data, pos + 1, b[1..])
  }

  lemma {:induction false} AtSlice(data: seq<u8>, pos: nat, b: seq<u8>)
    ensures At(data, pos, b) <==> pos + |b| <= |data| && data[pos..pos + |b|] == b
    decreases |b|
  {
    if b != [] {
      AtSlice(data, pos + 1, b[1..]);
      if pos + |b| <= |data| {
        assert data[pos..pos + |b|] == [data[pos]] + data[pos + 1..pos + 1 + |b[1..]|];
        assert b == [b[0]] + b[1..];
      }
    }
  }

  lemma {:induction false} AtConcat(data: seq<u8>, pos: nat, a: seq<u8>, b: seq<u8>)
    requires At(data, pos, a + b)
    ensures At(data, pos, a) && At(data, pos + |a|, b)
    decreases |a|
  {
    if a == [] {
      assert a + b == b;
    } else {
      assert (a + b)[1..] == a[1..] + b;
      AtConcat(data, pos + 1, a[1..], b);
    }
  }

  lemma AtShift(prefix: seq<u8>, data: seq<u8>, pos: nat, b: seq<u8>)
    requires At(data, pos, b)
    ensures At(prefix + data, |prefix| + pos, b)
  {
    AtSlice(data, pos, b);
    AtSlice(prefix + data, |prefix| + pos, b);
    assert (prefix + data)[|prefix| + pos..|prefix| + pos + |b|] == data[pos..pos + |b|];
  }

  lemma AtFront(a: seq<u8>, rest: seq<u8>)
    ensures At(a + rest, 0, a)
  {
    AtSlice(a + rest, 0, a);
    assert (a + rest)[..|a|] == a;
  }

  lemma AtByte(data: seq<u8>, pos: nat, b: seq<u8>, k: nat)
    requires At(data, pos, b) && k < |b|
    ensures data[pos + k] == b[k]
  {
    AtSlice(data, pos, b);
    assert data[pos + k] == data[pos..pos + |b|][k];
  }

  // ---------------------------------------------------------------------
  // Names

  /** A string the builder writes and `string0` reads back: ASCII, so that
      its UTF-8 bytes are one per character, and no zero byte inside. */
  ghost predicate NulFree(s: string)
  {
    IsAscii(s) && forall i | 0 <= i < |s| :: s[i] != '\0'
  }

  /** A file whose three names read back as themselves: an empty name would
      end its list early. */
  ghost predicate ReadableEntry(f: FileData)
  {
    && NulFree(f.extension) && f.extension != []
    && NulFree(f.location) && f.location != []
    && NulFree(f.name) && f.name != []
  }

  lemma {:induction false} ToBytesConcat(a: string, b: string)
    ensures ToBytes(a + b) == ToBytes(a) + ToBytes(b)
  {
    forall i | 0 <= i < |a| + |b|
      ensures ToBytes(a + b)[i] == (ToBytes(a) + ToBytes(b))[i]
    {
      if i < |a| {
        assert (a + b)[i] == a[i];
      } else {
        assert (a + b)[i] == b[i - |a|];
      }
    }
  }

  /** The name bytes of an entry are the three names, each closed by a zero. */
  lemma NameBytesParts(f: FileData)
    ensures NameBytes(f) ==
      (ToBytes(f.extension) + [0]) + (ToBytes(f.location) + [0]) + (ToBytes(f.name) + [0])
  {
    var e, l, n := f.extension, f.location, f.name;
    assert ToBytes("\0") == [0];
    ToBytesConcat(e + "\0" + l + "\0" + n, "\0");
    ToBytesConcat(e + "\0" + l + "\0", n);
    ToBytesConcat(e + "\0" + l, "\0");
    ToBytesConcat(e + "\0", l);
    ToBytesConcat(e, "\0");
    var te, tl, tn := ToBytes(e), ToBytes(l), ToBytes(n);
    assert te + [0] + tl + [0] + tn + [0] == (te + [0]) + (tl + [0]) + (tn + [0]);
  }

  /** `string0` at the start of a written name returns that name and the
      cursor after its zero byte. */
  lemma ReadKnownString(data: seq<u8>, pos: nat, s: string)
    requires NulFree(s) && At(data, pos, ToBytes(s) + [0])
    ensures ReadString0(data, pos) == Success((s, pos + |s| + 1))
  {
    AtConcat(data, pos, ToBytes(s), [0]);
    AtByte(data, pos + |s|, [0], 0);
    forall j | pos <= j < pos + |s|
      ensures data[j] != 0
    {
      AtByte(data, pos, ToBytes(s), j - pos);
      assert s[j - pos] as int != 0;
    }
    ReadString0Spec(data, pos);
    var r := ReadString0(data, pos);
    assert r.Success?;
    var next := r.value.1;
    assert next - 1 == pos + |s|;
    AtSlice(data, pos, ToBytes(s));
    AsciiIsByteString(s);
    CharsOfBytes(s);
  }

  lemma ReadEmptyString(data: seq<u8>, pos: nat)
    requires pos < |data| && data[pos] == 0
    ensures ReadString0(data, pos) == Success(([], pos + 1))
  {
    ReadString0Spec(data, pos);
    var r := ReadString0(data, pos);
    assert r.Success?;
  }

  /** The three names and their zero bytes as they lie in `data`. */
  lemma NamesAt(data: seq<u8>, pos: nat, f: FileData)
    requires At(data, pos, NameBytes(f))
    ensures var p1 := pos + |f.extension| + 1;
      var p2 := p1 + |f.location| + 1;
      && At(data, pos, ToBytes(f.extension) + [0])
      && At(data, p1, ToBytes(f.location) + [0])
      && At(data, p2, ToBytes(f.name) + [0])
  {
    var e, l, n := ToBytes(f.extension) + [0], ToBytes(f.location) + [0], ToBytes(f.name) + [0];
    NameBytesParts(f);
    AtConcat(data, pos, e + l, n);
    AtConcat(data, pos, e, l);
  }

  // ---------------------------------------------------------------------
  // Entries

  /** The flat key the reader files an entry under. */
  function Key(f: FileData): string
  {
    FullPath(f.extension, f.location, f.name)
  }

  /** The directory record the builder writes for `f`, as the reader returns
      it with its preload offset `preloadOffset`. */
  function EntryOf(f: FileData, preloadOffset: nat): Entry
    requires Encodable(f)
  {
    Entry(f.crc, 0, DIR_ARCHIVE, f.dataOffset.value, f.dataSize, Some(preloadOffset))
  }

  lemma Read16(data: seq<u8>, pos: nat, v: u16)
    requires At(data, pos, LE16(v))
    ensures pos + 2 <= |data| && U16At(data, pos) == v
  {
    AtSlice(data, pos, LE16(v));
    LE16RoundTrip(v, data, pos);
  }

  lemma Read32(data: seq<u8>, pos: nat, v: u32)
    requires At(data, pos, LE32(v))
    ensures pos + 4 <= |data| && U32At(data, pos) == v
  {
    AtSlice(data, pos, LE32(v));
    LE32RoundTrip(v, data, pos);
  }

  /** The record and its two closing zeros read back as written. */
  lemma RecordReads(data: seq<u8>, p: nat, f: FileData)
    requires Encodable(f) && At(data, p, RecordBytes(f))
    ensures ReadFileRecord(data, p) == Success((EntryOf(f, p + RECORD_LENGTH), p + RECORD_LENGTH))
    ensures p + RECORD_TAIL <= |data| && data[p + RECORD_LENGTH] == 0 && data[p + RECORD_LENGTH + 1] == 0
  {
    var off := f.dataOffset.value;
    var crc, none, arc, size, term := LE32(f.crc), LE16(0), LE16(DIR_ARCHIVE), LE32(f.dataSize), LE16(TERMINATOR);
    AtConcat(data, p, crc + none + arc + LE32(off) + size + term, [0, 0]);
    AtConcat(data, p, crc + none + arc + LE32(off) + size, term);
    AtConcat(data, p, crc + none + arc + LE32(off), size);
    AtConcat(data, p, crc + none + arc, LE32(off));
    AtConcat(data, p, crc + none, arc);
    AtConcat(data, p, crc, none);
    Read32(data, p, f.crc);
    Read16(data, p + 4, 0);
    Read16(data, p + 6, DIR_ARCHIVE);
    Read32(data, p + 8, off);
    Read32(data, p + 12, f.dataSize);
    Read16(data, p + 16, TERMINATOR);
    AtByte(data, p + 18, [0, 0], 0);
    AtByte(data, p + 18, [0, 0], 1);
  }

  lemma StepExtension(data: seq<u8>, pos: nat, e: string, next: nat, acc: FileTree)
    requires pos <= |data| && e != [] && ReadString0(data, pos) == Success((e, next))
    ensures next <= |data|
    ensures ParseTree(data, pos, Extensions, acc) == ParseTree(data, next, Directories(e), acc)
  {
    UnfoldExtensions(data, pos, acc);
  }

  lemma StepDirectory(data: seq<u8>, pos: nat, e: string, l: string, next: nat, acc: FileTree)
    requires pos <= |data| && l != [] && ReadString0(data, pos) == Success((l, next))
    ensures next <= |data|
    ensures ParseTree(data, pos, Directories(e), acc) == ParseTree(data, next, Names(e, l), acc)
  {
    UnfoldDirectories(data, pos, e, acc);
  }

  lemma StepName(data: seq<u8>, pos: nat, e: string, l: string, n: string, p3: nat, rec: Entry, next: nat, acc: FileTree)
    requires pos <= |data| && n != [] && ReadString0(data, pos) == Success((n, p3))
    requires ReadFileRecord(data, p3) == Success((rec, next))
    ensures next <= |data|
    ensures ParseTree(data, pos, Names(e, l), acc) == ParseTree(data, next, Names(e, l), acc.Put(FullPath(e, l, n), rec))
  {
    UnfoldNames(data, pos, e, l, acc);
  }

  lemma StepEndNames(data: seq<u8>, pos: nat, e: string, l: string, acc: FileTree)
    requires pos < |data| && data[pos] == 0
    ensures ParseTree(data, pos, Names(e, l), acc) == ParseTree(data, pos + 1, Directories(e), acc)
  {
    ReadEmptyString(data, pos);
    UnfoldNames(data, pos, e, l, acc);
  }

  lemma StepEndDirectories(data: seq<u8>, pos: nat, e: string, acc: FileTree)
    requires pos < |data| && data[pos] == 0
    ensures ParseTree(data, pos, Directories(e), acc) == ParseTree(data, pos + 1, Extensions, acc)
  {
    ReadEmptyString(data, pos);
    UnfoldDirectories(data, pos, e, acc);
  }

  /** The three names of a written entry read back as themselves. */
  lemma NamesRead(data: seq<u8>, pos: nat, f: FileData)
    requires ReadableEntry(f) && At(data, pos, NameBytes(f))
    ensures var p1 := pos + |f.extension| + 1;
      var p2 := p1 + |f.location| + 1;
      && ReadString0(data, pos) == Success((f.extension, p1))
      && ReadString0(data, p1) == Success((f.location, p2))
      && ReadString0(data, p2) == Success((f.name, p2 + |f.name| + 1))
  {
    var p1 := pos + |f.extension| + 1;
    var p2 := p1 + |f.location| + 1;
    NamesAt(data, pos, f);
    ReadKnownString(data, pos, f.extension);
    ReadKnownString(data, p1, f.location);
    ReadKnownString(data, p2, f.name);
  }

  /** The tree reader over the three names and the record of an entry makes
      one `files[key] = entry` step and stays in the name list. */
  lemma NameSteps(data: seq<u8>, pos: nat, e: string, l: string, n: string, p1: nat, p2: nat, p3: nat, rec: Entry, acc: FileTree)
    requires e != [] && l != [] && n != [] && pos <= |data|
    requires ReadString0(data, pos) == Success((e, p1))
    requires ReadString0(data, p1) == Success((l, p2))
    requires ReadString0(data, p2) == Success((n, p3))
    requires ReadFileRecord(data, p3) == Success((rec, p3 + RECORD_LENGTH))
    ensures p3 + RECORD_LENGTH <= |data|
    ensures ParseTree(data, pos, Extensions, acc) ==
      ParseTree(data, p3 + RECORD_LENGTH, Names(e, l), acc.Put(FullPath(e, l, n), rec))
  {
    StepExtension(data, pos, e, p1, acc);
    StepDirectory(data, p1, e, l, p2, acc);
    StepName(data, p2, e, l, n, p3, rec, p3 + RECORD_LENGTH, acc);
  }

  /** Two zero bytes close the name list and the directory list. */
  lemma CloseSteps(data: seq<u8>, pos: nat, e: string, l: string, acc: FileTree)
    requires pos + 2 <= |data| && data[pos] == 0 && data[pos + 1] == 0
    ensures ParseTree(data, pos, Names(e, l), acc) == ParseTree(data, pos + 2, Extensions, acc)
  {
    StepEndNames(data, pos, e, l, acc);
    StepEndDirectories(data, pos + 1, e, acc);
  }

  /** The bytes of a written entry as the tree reader meets them: the
      three names, the record, and the two zero bytes after it. */
  lemma EntryReads(data: seq<u8>, pos: nat, f: FileData)
    requires Encodable(f) && ReadableEntry(f) && At(data, pos, EntryBytes(f))
    ensures var p1 := pos + |f.extension| + 1;
      var p2 := p1 + |f.location| + 1;
      var p3 := p2 + |f.name| + 1;
      && p3 + RECORD_TAIL == pos + EntrySize(f) <= |data|
      && ReadString0(data, pos) == Success((f.extension, p1))
      && ReadString0(data, p1) == Success((f.location, p2))
      && ReadString0(data, p2) == Success((f.name, p3))
      && ReadFileRecord(data, p3) == Success((EntryOf(f, p3 + RECORD_LENGTH), p3 + RECORD_LENGTH))
      && data[p3 + RECORD_LENGTH] == 0 && data[p3 + RECORD_LENGTH + 1] == 0
  {
    var p3 := pos + |f.extension| + |f.location| + |f.name| + 3;
    assert At(data, pos, NameBytes(f)) && At(data, p3, RecordBytes(f)) by {
      AtConcat(data, pos, NameBytes(f), RecordBytes(f));
    }
    NamesRead(data, pos, f);
    RecordReads(data, p3, f);
  }

  /** One written entry reads back as one `files[key] = entry` of the tree
      reader, which then stands at the next extension string, just after
      the entry. The entry's preload offset is where its record ends, two
      bytes before the entry does. */
  lemma ParseEntry(data: seq<u8>, pos: nat, f: FileData, acc: FileTree)
    requires Encodable(f) && ReadableEntry(f) && At(data, pos, EntryBytes(f))
    ensures pos + EntrySize(f) <= |data|
    ensures ParseTree(data, pos, Extensions, acc) ==
      ParseTree(data, pos + EntrySize(f), Extensions, acc.Put(Key(f), EntryOf(f, pos + EntrySize(f) - 2)))
  {
    var p1 := pos + |f.extension| + 1;
    var p2 := p1 + |f.location| + 1;
    var p3 := p2 + |f.name| + 1;
    var rec := EntryOf(f, p3 + RECORD_LENGTH);
    var t := acc.Put(Key(f), rec);
    EntryReads(data, pos, f);
    calc {
      ParseTree(data, pos, Extensions, acc);
      { NameSteps(data, pos, f.extension, f.location, f.name, p1, p2, p3, rec, acc); }
      ParseTree(data, p3 + RECORD_LENGTH, Names(f.extension, f.location), t);
      { CloseSteps(data, p3 + RECORD_LENGTH, f.extension, f.location, t); }
      ParseTree(data, pos + EntrySize(f), Extensions, t);
    }
  }

  // ---------------------------------------------------------------------
  // The tree

  /** The tree the reader builds from the entries of `files` written one
      after the other from `pos` on, starting from `acc`: each entry puts
      its file under its key, with the preload offset two bytes before the
      entry ends. */
  function PutAll(files: seq<FileData>, pos: nat, acc: FileTree): (t: FileTree)
    requires forall f | f in files :: Encodable(f)
    decreases |files|
  {
    if files == [] then acc
    else
      var f := files[0];
      assert forall g | g in files[1..] :: g in files;
      PutAll(files[1..], pos + EntrySize(f), acc.Put(Key(f), EntryOf(f, pos + EntrySize(f) - 2)))
  }

  /** Each file stored adds at most one key. */
  lemma {:induction false} PutAllKeys(files: seq<FileData>, pos: nat, acc: FileTree)
    requires forall g | g in files :: Encodable(g)
    ensures |acc.keys| <= |PutAll(files, pos, acc).keys| <= |acc.keys| + |files|
    decreases |files|
  {
    if files != [] {
      assert forall g | g in files[1..] :: g in files;
      PutAllKeys(files[1..], pos + EntrySize(files[0]),
                 acc.Put(Key(files[0]), EntryOf(files[0], pos + EntrySize(files[0]) - 2)));
    }
  }

  /** Storing entries only appends keys: the keys already there stay first,
      in their order. */
  lemma {:induction false} PutAllKeepsOrder(files: seq<FileData>, pos: nat, acc: FileTree)
    requires forall g | g in files :: Encodable(g)
    ensures KeysFront(acc, PutAll(files, pos, acc))
    decreases |files|
  {
    if files != [] {
      var next := PutAllFront(files, pos, acc);
      PutAllKeepsOrder(files[1..], pos + EntrySize(files[0]), next);
    }
  }

  /** One step of `PutAll`: the first file is put, then the others; the
      keys of the result start with those of `acc` when they start with
      those of the tree after the first put. */
  lemma PutAllFront(files: seq<FileData>, pos: nat, acc: FileTree) returns (next: FileTree)
    requires files != [] && forall g | g in files :: Encodable(g)
    ensures forall g | g in files[1..] :: Encodable(g)
    ensures next == acc.Put(Key(files[0]), EntryOf(files[0], pos + EntrySize(files[0]) - 2))
    ensures KeysFront(next, PutAll(files[1..], pos + EntrySize(files[0]), next)) ==>
      KeysFront(acc, PutAll(files, pos, acc))
  {
    assert forall g | g in files[1..] :: g in files;
    next := acc.Put(Key(files[0]), EntryOf(files[0], pos + EntrySize(files[0]) - 2));
    if KeysFront(next, PutAll(files[1..], pos + EntrySize(files[0]), next)) {
      PutKeysFront(acc, Key(files[0]), EntryOf(files[0], pos + EntrySize(files[0]) - 2), PutAll(files, pos, acc));
    }
  }

  /** The keys of `t` start with those of `acc`, in order. */
  ghost predicate KeysFront(acc: FileTree, t: FileTree)
  {
    |acc.keys| <= |t.keys| && t.keys[..|acc.keys|] == acc.keys
  }

  lemma PutKeysFront(acc: FileTree, key: string, entry: Entry, t: FileTree)
    requires KeysFront(acc.Put(key, entry), t)
    ensures KeysFront(acc, t)
  {
    var next := acc.Put(key, entry);
    assert t.keys[..|acc.keys|] == t.keys[..|next.keys|][..|acc.keys|];
  }

  lemma {:induction false} SumEntrySizesFront(files: seq<FileData>)
    requires files != []
    ensures SumEntrySizes(files) == EntrySize(files[0]) + SumEntrySizes(files[1..])
    decreases |files|
  {
    if |files| > 1 {
      var init := files[..|files| - 1];
      SumEntrySizesFront(init);
      assert init[1..] == files[1..][..|files[1..]| - 1];
    }
  }

  lemma EntriesBytesRest(files: seq<FileData>)
    requires |files| > 1 && forall f | f in files :: Encodable(f)
    ensures EntriesBytes(files[1..]) == EntriesBytes(files[..|files| - 1][1..]) + EntryBytes(files[|files| - 1])
  {
    var rest := files[1..];
    assert files[..|files| - 1][1..] == rest[..|rest| - 1];
  }

  lemma EntriesBytesStep(files: seq<FileData>)
    requires |files| > 1 && forall f | f in files :: Encodable(f)
    requires EntriesBytes(files[..|files| - 1]) ==
      EntryBytes(files[0]) + EntriesBytes(files[..|files| - 1][1..])
    ensures EntriesBytes(files) == EntryBytes(files[0]) + EntriesBytes(files[1..])
  {
    EntriesBytesRest(files);
    ConcatRegroup(EntriesBytes(files), EntryBytes(files[0]), EntriesBytes(files[..|files| - 1][1..]),
                  EntryBytes(files[|files| - 1]), EntriesBytes(files[1..]));
  }

  lemma ConcatRegroup(x: seq<u8>, a: seq<u8>, b: seq<u8>, c: seq<u8>, y: seq<u8>)
    requires x == (a + b) + c && y == b + c
    ensures x == a + y
  {
  }

  lemma {:induction false} EntriesBytesFront(files: seq<FileData>)
    requires files != [] && forall f | f in files :: Encodable(f)
    ensures forall g | g in files[1..] :: g in files
    ensures EntriesBytes(files) == EntryBytes(files[0]) + EntriesBytes(files[1..])
    decreases |files|
  {
    assert forall g | g in files[1..] :: g in files;
    var init := files[..|files| - 1];
    assert forall g | g in init :: g in files;
    if |files| == 1 {
      assert init == [] && files[1..] == [];
    } else {
      EntriesBytesFront(init);
      EntriesBytesStep(files);
    }
  }

  /** The entries of `files` lie one after the other from `pos` on. */
  ghost predicate Laid(data: seq<u8>, pos: nat, files: seq<FileData>)
    requires forall f | f in files :: Encodable(f)
    decreases |files|
  {
    if files == [] then pos <= |data|
    else
      assert forall g | g in files[1..] :: g in files;
      At(data, pos, EntryBytes(files[0])) && Laid(data, pos + EntrySize(files[0]), files[1..])
  }

  lemma {:induction false} EntriesLaid(data: seq<u8>, pos: nat, files: seq<FileData>)
    requires forall f | f in files :: Encodable(f)
    requires At(data, pos, EntriesBytes(files))
    ensures Laid(data, pos, files)
    decreases |files|
  {
    if files == [] {
    } else {
      EntriesBytesFront(files);
      AtConcat(data, pos, EntryBytes(files[0]), EntriesBytes(files[1..]));
      EntriesLaid(data, pos + EntrySize(files[0]), files[1..]);
    }
  }

  /** `ParseEntry` with the end of the entry named by the caller, so that
      the reading positions are the caller's own terms. */
  lemma ParseEntryTo(data: seq<u8>, pos: nat, f: FileData, acc: FileTree, end: nat)
    requires Encodable(f) && ReadableEntry(f) && At(data, pos, EntryBytes(f))
    requires end == pos + EntrySize(f)
    ensures end <= |data|
    ensures ParseTree(data, pos, Extensions, acc) ==
      ParseTree(data, end, Extensions, acc.Put(Key(f), EntryOf(f, end - 2)))
  {
    ParseEntry(data, pos, f, acc);
  }

  /** The first entry, then the rest: reading from `pos` reads all. */
  lemma ParseFirst(data: seq<u8>, pos: nat, files: seq<FileData>, acc: FileTree, end: nat)
    requires files != [] && forall f | f in files :: Encodable(f)
    requires ReadableEntry(files[0]) && At(data, pos, EntryBytes(files[0]))
    requires forall g | g in files[1..] :: g in files
    requires end <= |data|
    requires ParseTree(data, pos + EntrySize(files[0]), Extensions,
                       acc.Put(Key(files[0]), EntryOf(files[0], pos + EntrySize(files[0]) - 2))) ==
      ParseTree(data, end, Extensions,
                PutAll(files[1..], pos + EntrySize(files[0]), acc.Put(Key(files[0]), EntryOf(files[0], pos + EntrySize(files[0]) - 2))))
    ensures ParseTree(data, pos, Extensions, acc) == ParseTree(data, end, Extensions, PutAll(files, pos, acc))
  {
    var f := files[0];
    var next := pos + EntrySize(f);
    ParseEntryTo(data, pos, f, acc, next);
  }

  /** Entries laid out from `pos` on read back as `PutAll`; `end` is where
      the last one ends. */
  lemma {:induction false} ParseLaid(data: seq<u8>, pos: nat, files: seq<FileData>, acc: FileTree, end: nat)
    requires forall f | f in files :: Encodable(f) && ReadableEntry(f)
    requires Laid(data, pos, files)
    requires end == pos + SumEntrySizes(files)
    ensures end <= |data|
    ensures ParseTree(data, pos, Extensions, acc) == ParseTree(data, end, Extensions, PutAll(files, pos, acc))
    decreases |files|
  {
    if files != [] {
      assert forall g | g in files[1..] :: g in files;
      SumEntrySizesFront(files);
      ParseLaid(data, pos + EntrySize(files[0]), files[1..],
                acc.Put(Key(files[0]), EntryOf(files[0], pos + EntrySize(files[0]) - 2)), end);
      ParseFirst(data, pos, files, acc, end);
    }
  }

  /** A key no file has keeps its entry, or its absence. */
  lemma {:induction false} PutAllMisses(files: seq<FileData>, pos: nat, acc: FileTree, key: string)
    requires forall g | g in files :: Encodable(g) && Key(g) != key
    ensures key in PutAll(files, pos, acc).entries <==> key in acc.entries
    ensures key in acc.entries ==> PutAll(files, pos, acc).entries[key] == acc.entries[key]
    decreases |files|
  {
    if files != [] {
      assert files[0] in files;
      assert Key(files[0]) != key;
      assert forall g | g in files[1..] :: g in files;
      PutAllMisses(files[1..], pos + EntrySize(files[0]),
                   acc.Put(Key(files[0]), EntryOf(files[0], pos + EntrySize(files[0]) - 2)), key);
    }
  }

  /** A file whose key no other file shares is found under its key with the
      entry written for it, whose preload offset lies past `pos`. */
  lemma {:induction false} PutAllFinds(files: seq<FileData>, pos: nat, acc: FileTree, f: FileData)
    requires forall g | g in files :: Encodable(g)
    requires f in files && forall g | g in files && Key(g) == Key(f) :: g == f
    ensures var t := PutAll(files, pos, acc);
      && Key(f) in t.entries
      && t.entries[Key(f)].preloadOffset.Some? && t.entries[Key(f)].preloadOffset.value > pos
      && t.entries[Key(f)] == EntryOf(f, t.entries[Key(f)].preloadOffset.value)
    decreases |files|
  {
    assert forall g | g in files[1..] :: g in files;
    if f in files[1..] {
      PutAllFinds(files[1..], pos + EntrySize(files[0]),
                  acc.Put(Key(files[0]), EntryOf(files[0], pos + EntrySize(files[0]) - 2)), f);
    } else {
      assert files[0] == f;
      PutAllMisses(files[1..], pos + EntrySize(files[0]),
                   acc.Put(Key(files[0]), EntryOf(files[0], pos + EntrySize(files[0]) - 2)), Key(f));
    }
  }


  // ---------------------------------------------------------------------
  // The archive file

  /** The header `save` writes reads back as a version-1 header. */
  lemma HeaderReads(data: seq<u8>, treeSize: u32)
    requires At(data, 0, HeaderBytes(treeSize))
    ensures ReadHeader(data) == Success((Header(1, treeSize, None), HEADER_1_LENGTH))
  {
    AtConcat(data, 0, LE32(SIGNATURE) + LE32(1), LE32(treeSize));
    AtConcat(data, 0, LE32(SIGNATURE), LE32(1));
    Read32(data, 0, SIGNATURE);
    Read32(data, 4, 1);
    Read32(data, 8, treeSize);
  }

  /** `load` of a file that starts with what `save` writes before the data:
      the header, then the entries of the kept files, then zeros to the end
      of the tree, the first of which ends the tree. */
  lemma SavedArchiveLoads(fs: FileSystem, path: string, treeSize: u32, files: seq<FileData>, rule: SkipRule,
                          rest: seq<u8>, s: ReaderState)
    requires SumEntrySizes(files) < treeSize && AllEncodable(files, rule)
    requires forall f | f in KeptFiles(files, rule) :: ReadableEntry(f)
    requires path in fs.contents && fs.contents[path] == HeaderBytes(treeSize) + TreeImage(files, treeSize, rule) + rest
    ensures LoadStep(fs, path, s) ==
      (ReaderState(true, Some(Header(1, treeSize, None)), PutAll(KeptFiles(files, rule), HEADER_1_LENGTH, EmptyTree)), Pass)
  {
    var data := fs.contents[path];
    var kept := KeptFiles(files, rule);
    var end := HEADER_1_LENGTH + SumEntrySizes(kept);
    SavedBytes(data, treeSize, EntriesBytes(kept), rest);
    HeaderReads(data, treeSize);
    EntriesLaid(data, HEADER_1_LENGTH, kept);
    ParseLaid(data, HEADER_1_LENGTH, kept, EmptyTree, end);
    ParseStopsAtEmptyExtension(data, end, PutAll(kept, HEADER_1_LENGTH, EmptyTree));
  }

  /** Where the parts of a saved directory file lie: the header at the
      front, the entries after it, and a zero byte just after them. */
  lemma SavedBytes(data: seq<u8>, treeSize: u32, entries: seq<u8>, rest: seq<u8>)
    requires |entries| < treeSize
    requires data == HeaderBytes(treeSize) + Padded(entries, treeSize) + rest
    ensures At(data, 0, HeaderBytes(treeSize))
    ensures At(data, HEADER_1_LENGTH, entries)
    ensures HEADER_1_LENGTH + |entries| < |data| && data[HEADER_1_LENGTH + |entries|] == 0
  {
    var zeros := Zeros(treeSize - |entries|);
    ThreeParts(data, HeaderBytes(treeSize), entries, zeros, rest);
    AtByte(data, HEADER_1_LENGTH + |entries|, zeros, 0);
  }

  lemma ThreeParts(data: seq<u8>, a: seq<u8>, b: seq<u8>, c: seq<u8>, rest: seq<u8>)
    requires data == a + (b + c) + rest
    ensures At(data, 0, a) && At(data, |a|, b) && At(data, |a| + |b|, c)
  {
    assert data == a + (b + (c + rest));
    AtFront(a, b + (c + rest));
    AtFront(b, c + rest);
    AtShift(a, b + (c + rest), 0, b);
    AtFront(c, rest);
    AtShift(b, c + rest, 0, c);
    AtShift(a, b + (c + rest), |b|, c);
  }

  /** The data of file `j` lies in the appended data at the total size of
      the files before it. */
  lemma {:induction false} DataAt(fs: FileSystem, files: seq<FileData>, j: nat)
    requires forall f | f in files :: f.fullPath in fs.contents && |fs.contents[f.fullPath]| == f.dataSize
    requires j < |files|
    ensures At(AppendData(fs, files).0, SumData(files[..j]), fs.contents[files[j].fullPath])
    decreases |files|
  {
    var c0 := fs.contents[files[0].fullPath];
    var rest := AppendData(fs, files[1..]).0;
    assert AppendData(fs, files).0 == c0 + rest;
    if j == 0 {
      assert files[..0] == [];
      AtFront(c0, rest);
    } else {
      assert forall f | f in files[1..] :: f in files;
      DataAt(fs, files[1..], j - 1);
      assert files[1..][j - 1] == files[j];
      SumDataFront(files[..j]);
      assert files[..j][1..] == files[1..][..j - 1];
      AtShift(c0, rest, SumData(files[1..][..j - 1]), fs.contents[files[j].fullPath]);
    }
  }

  /** `getFile` of an entry written for `f`, in a version-1 directory file
      that holds `c` where the entry says: the bytes `c`, when they carry
      the recorded checksum. */
  lemma FetchWritten(fs: FileSystem, crc32: Crc32, path: string, treeSize: u32, tree: FileTree, key: string,
                     f: FileData, p: nat, image: seq<u8>, start: nat, c: seq<u8>)
    requires Encodable(f) && p > 0 && key in tree.entries && tree.entries[key] == EntryOf(f, p)
    requires path in fs.contents && fs.contents[path] == image
    requires start == HEADER_1_LENGTH + treeSize + f.dataOffset.value && At(image, start, c)
    requires |c| == f.dataSize && crc32(c) == f.crc
    ensures Fetch(fs, crc32, path, Some(Header(1, treeSize, None)), tree, key) == Success(c)
  {
    var e := EntryOf(f, p);
    var header := Some(Header(1, treeSize, None));
    assert Resolvable(tree, key);
    if f.dataSize > 0 {
      assert Locate(path, header, e) == (path, start);
      AtSlice(fs.contents[path], start, c);
      assert Window(fs.contents[path], start, f.dataSize) == c;
      assert Padded(c, f.dataSize) == c + [];
      assert MainPart(fs, path, header, e) == c;
    } else {
      assert c == [];
    }
    assert Retrieve(fs, path, header, e) == Success([] + c);
    assert [] + c == c;
  }

  // ---------------------------------------------------------------------
  // Save, then load and read back

  /** A scanned file the builder can pack and the reader can read back:
      names the tree reader parses, present with its recorded size, and
      with its recorded checksum. */
  ghost predicate Stored(fs: FileSystem, crc32: Crc32, f: FileData)
  {
    && ReadableEntry(f) && f.fullPath in fs.contents
    && |fs.contents[f.fullPath]| == f.dataSize && crc32(fs.contents[f.fullPath]) == f.crc
  }

  /** What a directory must hold for its archive to read back: every file
      stored, no two files under one key, and the tree size and the data
      offsets within 32 bits. */
  ghost predicate Packable(fs: FileSystem, crc32: Crc32, scan: seq<FileData>)
  {
    && (forall f | f in scan :: Stored(fs, crc32, f))
    && KeysDistinct(scan)
    && SumEntrySizes(scan) + 1 < U32_LIMIT
    && SumData(scan) < U32_LIMIT
  }

  /** One annotated file: the scanned file with its entry size, at data
      offset the total size of the files before it, within 32 bits. */
  lemma AnnotatedFile(fs: FileSystem, crc32: Crc32, scan: seq<FileData>, i: nat)
    requires Packable(fs, crc32, scan) && i < |scan|
    ensures var f := Annotate(scan)[i];
      && Encodable(f) && f.entrySize == Some(EntrySize(f)) && Stored(fs, crc32, f)
      && Key(f) == Key(scan[i]) && f.fullPath == scan[i].fullPath
      && f.dataOffset == Some(SumData(scan[..i]))
  {
    var f := Annotated(scan[i], SumData(scan[..i]));
    assert Annotate(scan)[i] == f;
    assert f.location == scan[i].location && f.name == scan[i].name && f.extension == scan[i].extension;
    assert EntrySize(f) == EntrySize(scan[i]);
    assert scan[i] in scan;
    SumDataPrefix(scan, i, i + 1);
    SumDataPrefix(scan, i + 1, |scan|);
    assert scan[..|scan|] == scan;
  }

  /** Every file of `files` is present with its recorded size. */
  ghost predicate Present(fs: FileSystem, files: seq<FileData>)
  {
    forall f | f in files :: f.fullPath in fs.contents && |fs.contents[f.fullPath]| == f.dataSize
  }

  /** The data offsets of annotated files are measured in the scanned sizes. */
  lemma AnnotatedPrefixData(scan: seq<FileData>, i: nat)
    requires i <= |scan|
    ensures SumData(Annotate(scan)[..i]) == SumData(scan[..i])
  {
    AnnotateKeepsFiles(scan);
    SameSizes(Annotate(scan)[..i], scan[..i]);
  }

  /** Saving files that are all present and encodable writes the header,
      the tree buffer and all the data, and passes. */
  lemma SaveWrites(fs: FileSystem, destination: string, treeSize: nat, files: seq<FileData>, rule: SkipRule)
    requires SumEntrySizes(files) <= treeSize < U32_LIMIT
    requires AllEncodable(files, rule) && Present(fs, files) && destination !in fs.unwritable
    ensures SaveResult(fs, destination, treeSize, files, rule) ==
      (Some(HeaderBytes(treeSize) + TreeImage(files, treeSize, rule) + AppendData(fs, files).0), Pass)
  {
    SavedLength(fs, files);
  }

  /** No two files share a key. */
  ghost predicate KeysDistinct(files: seq<FileData>)
  {
    forall i, j | 0 <= i < j < |files| :: Key(files[i]) != Key(files[j])
  }

  /** In the tree parsed back from a save, the key of every kept file finds
      that file's record, at a preload offset past the header. */
  lemma KeptFinds(files: seq<FileData>, rule: SkipRule, i: nat)
    requires forall f | f in files :: Encodable(f)
    requires KeysDistinct(files) && i < |files| && Kept(files[i], rule)
    ensures var t := PutAll(KeptFiles(files, rule), HEADER_1_LENGTH, EmptyTree);
      && Key(files[i]) in t.entries
      && t.entries[Key(files[i])].preloadOffset.Some? && t.entries[Key(files[i])].preloadOffset.value > HEADER_1_LENGTH
      && t.entries[Key(files[i])] == EntryOf(files[i], t.entries[Key(files[i])].preloadOffset.value)
  {
    var kept := KeptFiles(files, rule);
    assert files[i] in files;
    forall g | g in kept && Key(g) == Key(files[i])
      ensures g == files[i]
    {
      var j :| 0 <= j < |files| && files[j] == g;
      assert !(i < j) && !(j < i);
    }
    PutAllFinds(kept, HEADER_1_LENGTH, EmptyTree, files[i]);
  }

  /** The destination file after a save that writes `out`. */
  function Written(fs: FileSystem, destination: string, out: seq<u8>): (fs': FileSystem)
    ensures destination in fs'.contents && fs'.contents[destination] == out
  {
    fs.(contents := fs.contents[destination := out])
  }

  /** `getFile` of kept file `i` in the saved archive file returns that
      file's bytes. */
  lemma KeptFileFetched(fs: FileSystem, crc32: Crc32, destination: string, files: seq<FileData>, treeSize: nat,
                        rule: SkipRule, i: nat)
    requires forall f | f in files :: Encodable(f)
    requires KeysDistinct(files) && Present(fs, files) && SumEntrySizes(files) <= treeSize < U32_LIMIT
    requires i < |files| && Kept(files[i], rule) && files[i].dataOffset == Some(SumData(files[..i]))
    requires crc32(fs.contents[files[i].fullPath]) == files[i].crc
    ensures AllEncodable(files, rule)
    ensures Fetch(Written(fs, destination, HeaderBytes(treeSize) + TreeImage(files, treeSize, rule) + AppendData(fs, files).0),
                  crc32, destination, Some(Header(1, treeSize, None)), PutAll(KeptFiles(files, rule), HEADER_1_LENGTH, EmptyTree),
                  Key(files[i])) == Success(fs.contents[files[i].fullPath])
  {
    assert AllEncodable(files, rule);
    KeptFinds(files, rule, i);
    assert files[i] in files;
    DataAt(fs, files, i);
    FetchSaved(fs, crc32, destination, treeSize, files[i], PutAll(KeptFiles(files, rule), HEADER_1_LENGTH, EmptyTree),
               HeaderBytes(treeSize) + TreeImage(files, treeSize, rule), AppendData(fs, files).0, SumData(files[..i]));
  }

  /** `getFile` of the entry written for `f` in a version-1 directory file
      holding `prefix` (header and tree) and then `data`, which holds `f`'s
      bytes where the entry says. */
  lemma FetchSaved(fs: FileSystem, crc32: Crc32, destination: string, treeSize: nat, f: FileData,
                   tree: FileTree, prefix: seq<u8>, data: seq<u8>, offset: nat)
    requires Encodable(f) && treeSize < U32_LIMIT && f.fullPath in fs.contents
    requires Key(f) in tree.entries && tree.entries[Key(f)].preloadOffset.Some?
    requires tree.entries[Key(f)].preloadOffset.value > HEADER_1_LENGTH
    requires tree.entries[Key(f)] == EntryOf(f, tree.entries[Key(f)].preloadOffset.value)
    requires |prefix| == HEADER_1_LENGTH + treeSize && f.dataOffset == Some(offset)
    requires At(data, offset, fs.contents[f.fullPath])
    requires |fs.contents[f.fullPath]| == f.dataSize && crc32(fs.contents[f.fullPath]) == f.crc
    ensures Fetch(Written(fs, destination, prefix + data), crc32, destination, Some(Header(1, treeSize, None)), tree, Key(f))
      == Success(fs.contents[f.fullPath])
  {
    var c := fs.contents[f.fullPath];
    AtShift(prefix, data, offset, c);
    FetchWritten(Written(fs, destination, prefix + data), crc32, destination, treeSize, tree, Key(f), f,
                 tree.entries[Key(f)].preloadOffset.value, prefix + data, |prefix| + offset, c);
  }

  /** Saving files that carry their entry sizes and data offsets passes,
      and loading the saved file passes with the header written and the
      tree of the kept files. */
  lemma SavedLoads(fs: FileSystem, destination: string, files: seq<FileData>, treeSize: nat,
                   rule: SkipRule, s: ReaderState)
    requires forall f | f in files :: Encodable(f) && ReadableEntry(f)
    requires Present(fs, files) && destination !in fs.unwritable
    requires SumEntrySizes(files) < treeSize < U32_LIMIT
    ensures SaveResult(fs, destination, treeSize, files, rule) ==
      (Some(HeaderBytes(treeSize) + TreeImage(files, treeSize, rule) + AppendData(fs, files).0), Pass)
    ensures LoadStep(Written(fs, destination, HeaderBytes(treeSize) + TreeImage(files, treeSize, rule) + AppendData(fs, files).0),
                     destination, s) ==
      (ReaderState(true, Some(Header(1, treeSize, None)), PutAll(KeptFiles(files, rule), HEADER_1_LENGTH, EmptyTree)), Pass)
  {
    assert AllEncodable(files, rule);
    SaveWrites(fs, destination, treeSize, files, rule);
    var prefix := HeaderBytes(treeSize) + TreeImage(files, treeSize, rule);
    var data := AppendData(fs, files).0;
    var fs' := Written(fs, destination, prefix + data);
    assert forall f | f in KeptFiles(files, rule) :: ReadableEntry(f);
    SavedArchiveLoads(fs', destination, treeSize, files, rule, data, s);
  }

  /** What saving and reading back need of the tree: every file encodable,
      with its entry size, and stored; no two files under one key; each
      file's data offset the total size of the files before it; and the
      tree size above the entries' total and within 32 bits. */
  ghost predicate Ready(fs: FileSystem, crc32: Crc32, files: seq<FileData>, treeSize: nat)
  {
    && (forall f | f in files :: Encodable(f) && f.entrySize == Some(EntrySize(f)) && Stored(fs, crc32, f))
    && KeysDistinct(files)
    && (forall i | 0 <= i < |files| :: files[i].dataOffset == Some(SumData(files[..i])))
    && SumEntrySizes(files) < treeSize < U32_LIMIT
  }

  /** Each annotated file keeps its scanned file's key and path, and sits at
      the total size of the annotated files before it. */
  lemma AnnotatedOffsets(fs: FileSystem, crc32: Crc32, scan: seq<FileData>)
    requires Packable(fs, crc32, scan)
    ensures forall i | 0 <= i < |scan| ::
      && Key(Annotate(scan)[i]) == Key(scan[i]) && Annotate(scan)[i].fullPath == scan[i].fullPath
      && Annotate(scan)[i].dataOffset == Some(SumData(Annotate(scan)[..i]))
  {
    forall i | 0 <= i < |scan|
      ensures Key(Annotate(scan)[i]) == Key(scan[i]) && Annotate(scan)[i].fullPath == scan[i].fullPath
      ensures Annotate(scan)[i].dataOffset == Some(SumData(Annotate(scan)[..i]))
    {
      AnnotatedFile(fs, crc32, scan, i);
      AnnotatedPrefixData(scan, i);
    }
  }

  /** Every annotated file is encodable, sized and stored. */
  lemma AnnotatedStored(fs: FileSystem, crc32: Crc32, scan: seq<FileData>)
    requires Packable(fs, crc32, scan)
    ensures forall f | f in Annotate(scan) :: Encodable(f) && f.entrySize == Some(EntrySize(f)) && Stored(fs, crc32, f)
  {
    forall f | f in Annotate(scan)
      ensures Encodable(f) && f.entrySize == Some(EntrySize(f)) && Stored(fs, crc32, f)
    {
      var k :| 0 <= k < |scan| && Annotate(scan)[k] == f;
      AnnotatedFile(fs, crc32, scan, k);
    }
  }

  /** The annotated files of a packable directory keep its distinct keys. */
  lemma AnnotatedKeysDistinct(fs: FileSystem, crc32: Crc32, scan: seq<FileData>)
    requires Packable(fs, crc32, scan)
    ensures KeysDistinct(Annotate(scan))
  {
    forall i, j | 0 <= i < j < |scan|
      ensures Key(Annotate(scan)[i]) != Key(Annotate(scan)[j])
    {
      AnnotatedFile(fs, crc32, scan, i);
      AnnotatedFile(fs, crc32, scan, j);
    }
  }

  /** The tree `Creator.Load` builds for a packable directory, with the
      tree size it computes, is ready to save, and keeps each scanned
      file's key and path. */
  lemma LoadedTreeReady(fs: FileSystem, crc32: Crc32, scan: seq<FileData>)
    requires Packable(fs, crc32, scan)
    ensures Ready(fs, crc32, Annotate(scan), SumEntrySizes(scan) + 1)
    ensures forall i | 0 <= i < |scan| ::
      Key(Annotate(scan)[i]) == Key(scan[i]) && Annotate(scan)[i].fullPath == scan[i].fullPath
  {
    AnnotatedOffsets(fs, crc32, scan);
    AnnotatedStored(fs, crc32, scan);
    AnnotatedKeysDistinct(fs, crc32, scan);
    assert SumEntrySizes(Annotate(scan)) == SumEntrySizes(scan) by {
      AnnotateKeepsFiles(scan);
    }
  }

  /** The round trip: save a ready tree, load the saved file, and `getFile`
      of the key of any file the tree keeps returns that file's bytes
      unchanged. */
  lemma SavedFileReads(fs: FileSystem, crc32: Crc32, destination: string, files: seq<FileData>, treeSize: nat,
                       rule: SkipRule, i: nat, s: ReaderState)
    requires Ready(fs, crc32, files, treeSize) && destination !in fs.unwritable
    requires i < |files| && Kept(files[i], rule)
    ensures SaveResult(fs, destination, treeSize, files, rule).1 == Pass
    ensures SaveResult(fs, destination, treeSize, files, rule).0.Some?
    ensures
      var fs' := Written(fs, destination, SaveResult(fs, destination, treeSize, files, rule).0.value);
      var loaded := LoadStep(fs', destination, s);
      && loaded.1 == Pass
      && loaded.0.header == Some(Header(1, treeSize, None))
      && Fetch(fs', crc32, destination, loaded.0.header, loaded.0.tree, Key(files[i])) == Success(fs.contents[files[i].fullPath])
  {
    assert files[i] in files;
    assert Present(fs, files);
    SavedLoads(fs, destination, files, treeSize, rule, s);
    KeptFileFetched(fs, crc32, destination, files, treeSize, rule, i);
  }

  /** In the tree parsed back from a save, the key of a file the tree does
      not keep finds nothing. */
  lemma UnkeptMisses(files: seq<FileData>, rule: SkipRule, i: nat)
    requires forall f | f in files :: Encodable(f)
    requires KeysDistinct(files) && i < |files| && !Kept(files[i], rule)
    ensures Key(files[i]) !in PutAll(KeptFiles(files, rule), HEADER_1_LENGTH, EmptyTree).entries
  {
    var kept := KeptFiles(files, rule);
    forall g | g in kept
      ensures Encodable(g) && Key(g) != Key(files[i])
    {
      var j :| 0 <= j < |files| && files[j] == g;
      assert j != i;
      assert i < j || j < i;
    }
    PutAllMisses(kept, HEADER_1_LENGTH, EmptyTree, Key(files[i]));
  }

  /** Save, load and `getFile` of a file the tree does not keep: the saved
      archive loads, and the file is not found. */
  lemma SavedFileMissing(fs: FileSystem, crc32: Crc32, destination: string, files: seq<FileData>, treeSize: nat,
                         rule: SkipRule, i: nat, s: ReaderState)
    requires Ready(fs, crc32, files, treeSize) && destination !in fs.unwritable
    requires i < |files| && !Kept(files[i], rule)
    ensures SaveResult(fs, destination, treeSize, files, rule).1 == Pass
    ensures SaveResult(fs, destination, treeSize, files, rule).0.Some?
    ensures
      var fs' := Written(fs, destination, SaveResult(fs, destination, treeSize, files, rule).0.value);
      var loaded := LoadStep(fs', destination, s);
      && loaded.1 == Pass
      && Fetch(fs', crc32, destination, loaded.0.header, loaded.0.tree, Key(files[i])) == Failure(NoSuchFile)
  {
    assert Present(fs, files);
    SavedLoads(fs, destination, files, treeSize, rule, s);
    UnkeptMisses(files, rule, i);
  }

  /** As `save` is written, the first file, whose data offset is 0, is left
      out of the tree: the saved archive loads, and `getFile` of the first
      file does not find it. */
  lemma FirstFileDropped(fs: FileSystem, crc32: Crc32, destination: string, files: seq<FileData>, treeSize: nat,
                         s: ReaderState)
    requires Ready(fs, crc32, files, treeSize) && destination !in fs.unwritable && files != []
    ensures SaveResult(fs, destination, treeSize, files, AsWritten).1 == Pass
    ensures SaveResult(fs, destination, treeSize, files, AsWritten).0.Some?
    ensures
      var fs' := Written(fs, destination, SaveResult(fs, destination, treeSize, files, AsWritten).0.value);
      var loaded := LoadStep(fs', destination, s);
      && loaded.1 == Pass
      && Fetch(fs', crc32, destination, loaded.0.header, loaded.0.tree, Key(files[0])) == Failure(NoSuchFile)
  {
    assert files[..0] == [];
    SavedFileMissing(fs, crc32, destination, files, treeSize, AsWritten, 0, s);
  }

  /** With the skip rule `save` evidently intends (leave out only files
      without an entry size or a data offset), every file of a ready tree
      reads back unchanged. */
  lemma EveryFileReads(fs: FileSystem, crc32: Crc32, destination: string, files: seq<FileData>, treeSize: nat,
                       i: nat, s: ReaderState)
    requires Ready(fs, crc32, files, treeSize) && destination !in fs.unwritable && i < |files|
    ensures SaveResult(fs, destination, treeSize, files, Intended).1 == Pass
    ensures SaveResult(fs, destination, treeSize, files, Intended).0.Some?
    ensures
      var fs' := Written(fs, destination, SaveResult(fs, destination, treeSize, files, Intended).0.value);
      var loaded := LoadStep(fs', destination, s);
      && loaded.1 == Pass
      && loaded.0.header == Some(Header(1, treeSize, None))
      && Fetch(fs', crc32, destination, loaded.0.header, loaded.0.tree, Key(files[i])) == Success(fs.contents[files[i].fullPath])
  {
    assert files[i] in files;
    SavedFileReads(fs, crc32, destination, files, treeSize, Intended, i, s);
  }
}
