/** The binary layout of a VPK directory file: the header, the directory
    entry records, and the tree of null-terminated names (index.ts:9-115). */
module Codec {
  import opened Bytes
  import opened Types

  const SIGNATURE: u32 := 0x55AA1234
  const HEADER_1_LENGTH: nat := 12
  const HEADER_2_LENGTH: nat := 28
  /** crc, preloadBytes, archiveIndex, entryOffset, entryLength, terminator */
  const RECORD_LENGTH: nat := 18
  const TERMINATOR: u16 := 0xFFFF

  /** Bytes a header of the given version occupies (0 for an unknown version,
      which `getFile` adds nothing for). */
  function HeaderLength(version: int): (n: nat)
    ensures n == 0 || n == HEADER_1_LENGTH || n == HEADER_2_LENGTH
    ensures n == 0 <==> version != 1 && version != 2
  {
    if version == 1 then HEADER_1_LENGTH
    else if version == 2 then HEADER_2_LENGTH
    else 0
  }

  /** `vpkHeader.read` from the start of the buffer: the header and the cursor
      after it. */
  function ReadHeader(data: seq<u8>): (r: Result<(Header, nat)>)
    ensures r.Success? <==>
      && |data| >= HEADER_1_LENGTH
      && U32At(data, 0) == SIGNATURE
      && (U32At(data, 4) == 1 || U32At(data, 4) == 2)
      && (U32At(data, 4) == 2 ==> |data| >= HEADER_2_LENGTH)
    ensures r.Success? ==>
      var (h, next) := r.value;
      && h.version == U32At(data, 4)
      && h.treeLength == U32At(data, 8)
      && next == HeaderLength(h.version) <= |data|
      && (h.version == 1 ==> h.v2 == None)
      && (h.version == 2 ==> h.v2 == Some(V2Fields(U32At(data, 12), U32At(data, 16), U32At(data, 20), U32At(data, 24))))
    ensures |data| >= 4 && U32At(data, 0) != SIGNATURE ==> r == Failure(SignatureInvalid)
    ensures |data| >= 8 && U32At(data, 0) == SIGNATURE && U32At(data, 4) != 1 && U32At(data, 4) != 2 ==>
      r == Failure(VersionInvalid)
  {
    if |data| < 4 then Failure(OutOfBounds)
    else if U32At(data, 0) != SIGNATURE then Failure(SignatureInvalid)
    else if |data| < 8 then Failure(OutOfBounds)
    else
      var version := U32At(data, 4);
      if version != 1 && version != 2 then Failure(VersionInvalid)
      else if |data| < HEADER_1_LENGTH then Failure(OutOfBounds)
      else
        var treeLength := U32At(data, 8);
        if version == 1 then Success((Header(version, treeLength, None), HEADER_1_LENGTH))
        else if |data| < HEADER_2_LENGTH then Failure(OutOfBounds)
        else
          var extra := V2Fields(U32At(data, 12), U32At(data, 16), U32At(data, 20), U32At(data, 24));
          Success((Header(version, treeLength, Some(extra)), HEADER_2_LENGTH))
  }

  /** `vpkDirectoryEntry.read` at `pos`: the five fields, then the terminator
      that must be 0xFFFF. The preload offset is left for the tree reader. */
  function ReadEntry(data: seq<u8>, pos: nat): (r: Result<(Entry, nat)>)
    ensures r.Success? <==> pos + RECORD_LENGTH <= |data| && U16At(data, pos + 16) == TERMINATOR
    ensures r.Success? ==>
      r.value.1 == pos + RECORD_LENGTH &&
      r.value.0 == Entry(U32At(data, pos), U16At(data, pos + 4), U16At(data, pos + 6),
                         U32At(data, pos + 8), U32At(data, pos + 12), None)
    ensures pos + RECORD_LENGTH <= |data| && U16At(data, pos + 16) != TERMINATOR ==>
      r == Failure(TerminatorInvalid)
  {
    if |data| < pos + RECORD_LENGTH then Failure(OutOfBounds)
    else
      var entry := Entry(U32At(data, pos), U16At(data, pos + 4), U16At(data, pos + 6),
                         U32At(data, pos + 8), U32At(data, pos + 12), None);
      if U16At(data, pos + 16) != TERMINATOR then Failure(TerminatorInvalid)
      else Success((entry, pos + RECORD_LENGTH))
  }

  /** The index of the first zero byte at or after `pos`, if there is one. */
  function FindNull(data: seq<u8>, pos: nat): (r: Option<nat>)
    requires pos <= |data|
    ensures r.Some? ==> pos <= r.value < |data|
    decreases |data| - pos
  {
    if pos == |data| then None
    else if data[pos] == 0 then Some(pos)
    else FindNull(data, pos + 1)
  }

  /** The index found is the first zero byte from `pos` on; there is none
      exactly when the search fails. */
  lemma {:induction false} FindNullSpec(data: seq<u8>, pos: nat)
    requires pos <= |data|
    ensures var r := FindNull(data, pos);
      && (r.Some? ==> data[r.value] == 0 && forall j | pos <= j < r.value :: data[j] != 0)
      && (r.None? <==> forall j | pos <= j < |data| :: data[j] != 0)
    decreases |data| - pos
  {
    if pos < |data| && data[pos] != 0 {
      FindNullSpec(data, pos + 1);
    }
  }

  /** `string0`: the bytes up to the next zero byte, and the cursor past that
      zero. A buffer that ends before a zero byte is a failure. */
  function ReadString0(data: seq<u8>, pos: nat): (r: Result<(string, nat)>)
    requires pos <= |data|
    ensures r.Success? ==> pos < r.value.1 <= |data| && |r.value.0| == r.value.1 - 1 - pos
    ensures r.Failure? ==> r.error == OutOfBounds
  {
    match FindNull(data, pos)
    case None => Failure(OutOfBounds)
    case Some(z) => Success((ToChars(data[pos..z]), z + 1))
  }

  /** What `string0` reads: the characters of the bytes before the first
      zero byte at or after `pos`, with the cursor just past that zero; it
      fails exactly when no zero byte follows. */
  lemma ReadString0Spec(data: seq<u8>, pos: nat)
    requires pos <= |data|
    ensures var r := ReadString0(data, pos);
      && (r.Success? ==>
        var (s, next) := r.value;
        && s == ToChars(data[pos..next - 1]) && data[next - 1] == 0
        && (forall i | pos <= i < next - 1 :: data[i] != 0))
      && (r.Failure? <==> forall j | pos <= j < |data| :: data[j] != 0)
  {
    FindNullSpec(data, pos);
  }

  /** The flat key of a file: a single-space name stands for the empty name, a
      single-space extension for "no extension", a single-space directory for
      "no directory". */
  function FullPath(extension: string, directory: string, filename: string): (key: string)
    ensures |key| == (if directory != " " then |directory| + 1 else 0)
                   + (if filename != " " then |filename| else 0)
                   + (if extension != " " then |extension| + 1 else 0)
    ensures directory != " " ==> key[..|directory| + 1] == directory + "/"
    ensures extension != " " ==> key[|key| - |extension| - 1..] == "." + extension
    ensures filename != " " ==>
      var start := if directory != " " then |directory| + 1 else 0;
      key[start..start + |filename|] == filename
    ensures directory == " " && extension == " " ==> key == if filename == " " then "" else filename
  {
    var base := if filename == " " then "" else filename;
    var withExtension := if extension != " " then base + "." + extension else base;
    if directory != " " then directory + "/" + withExtension else withExtension
  }

  /** Within one extension and directory group, different (non-empty) names
      give different keys: a key is only overwritten by a key from another
      group or by a repeated name. */
  lemma FullPathInjective(extension: string, directory: string, n1: string, n2: string)
    requires n1 != [] && n2 != []
    requires FullPath(extension, directory, n1) == FullPath(extension, directory, n2)
    ensures n1 == n2
  {
  }

  /** Which of the three nested loops of `vpkTree.read` the cursor is in. */
  datatype Level =
    | Extensions
    | Directories(extension: string)
    | Names(extension: string, directory: string)

  /** An entry whose preload offset lies after `lo` and whose preload bytes
      end by `hi`. */
  ghost predicate PreloadInside(e: Entry, lo: nat, hi: nat)
  {
    e.preloadOffset.Some? && lo + 20 <= e.preloadOffset.value && e.preloadOffset.value + e.preloadBytes <= hi
  }

  /** The record that follows a file name at `pos`, with its preload offset set
      to the cursor after the terminator, and the cursor after skipping the
      preload bytes. */
  function ReadFileRecord(data: seq<u8>, pos: nat): (r: Result<(Entry, nat)>)
    ensures r.Success? <==>
      && ReadEntry(data, pos).Success?
      && pos + RECORD_LENGTH + ReadEntry(data, pos).value.0.preloadBytes <= |data|
    ensures r.Success? ==>
      var (entry, next) := r.value;
      && entry == ReadEntry(data, pos).value.0.(preloadOffset := Some(pos + RECORD_LENGTH))
      && next == pos + RECORD_LENGTH + entry.preloadBytes
    ensures r.Failure? ==> ReadEntry(data, pos).Failure? ==> r == ReadEntry(data, pos).PropagateFailure()
  {
    var (record, preloadOffset) :- ReadEntry(data, pos);
    var next := preloadOffset + record.preloadBytes;
    if next > |data| then Failure(OutOfBounds)
    else Success((record.(preloadOffset := Some(preloadOffset)), next))
  }

  /** What the rest of `vpkTree.read` produces from cursor `pos` at `level`
      with `files` read so far: the tree and the cursor after the final empty
      extension. Every step reads at least the one zero byte of a string. */
  function ParseTree(data: seq<u8>, pos: nat, level: Level, files: FileTree): (r: Result<(FileTree, nat)>)
    requires pos <= |data|
    ensures r.Success? ==> pos < r.value.1 <= |data|
    decreases |data| - pos
  {
    var read :- ReadString0(data, pos);
    var s := read.0;
    var p := read.1;
    match level
    case Extensions =>
      if s == [] then Success((files, p))
      else ParseTree(data, p, Directories(s), files)
    case Directories(extension) =>
      if s == [] then ParseTree(data, p, Extensions, files)
      else ParseTree(data, p, Names(extension, s), files)
    case Names(extension, directory) =>
      if s == [] then ParseTree(data, p, Directories(extension), files)
      else
        var (entry, next) :- ReadFileRecord(data, p);
        ParseTree(data, next, Names(extension, directory), files.Put(FullPath(extension, directory, s), entry))
  }

  /** `t` keeps the key order of `files` as a prefix and the entries of
      `files` it does not replace; every entry it adds or replaces has its
      preload offset at least 20 bytes after `lo` (a one-character name, its
      zero byte and the 18-byte record) and its preload bytes before `hi`. */
  ghost predicate Extends(files: FileTree, t: FileTree, lo: nat, hi: nat)
  {
    && |files.keys| <= |t.keys| && t.keys[..|files.keys|] == files.keys
    && forall k | k in t.entries ::
         || (k in files.entries && t.entries[k] == files.entries[k])
         || PreloadInside(t.entries[k], lo, hi)
  }

  lemma ExtendsPut(files: FileTree, key: string, entry: Entry, t: FileTree, lo: nat, mid: nat, hi: nat)
    requires lo <= mid && PreloadInside(entry, lo, hi)
    requires Extends(files.Put(key, entry), t, mid, hi)
    ensures Extends(files, t, lo, hi)
  {
    var files' := files.Put(key, entry);
    assert t.keys[..|files.keys|] == t.keys[..|files'.keys|][..|files.keys|];
    forall k | k in t.entries
      ensures || (k in files.entries && t.entries[k] == files.entries[k])
              || PreloadInside(t.entries[k], lo, hi)
    {
      if k in files'.entries && t.entries[k] == files'.entries[k] {
        if k == key {
          assert t.entries[k] == entry;
        }
      } else {
        assert PreloadInside(t.entries[k], mid, hi);
      }
    }
  }

  /** Parsing keeps the tree well formed, only adds keys at the end of the key
      order, and every entry it adds or replaces has its preload offset after
      the cursor it started at and its preload bytes inside what it consumed. */
  lemma {:induction false} ParseTreeExtends(data: seq<u8>, pos: nat, level: Level, files: FileTree)
    requires pos <= |data| && ParseTree(data, pos, level, files).Success?
    ensures var (t, next) := ParseTree(data, pos, level, files).value;
      && (files.Valid() ==> t.Valid())
      && Extends(files, t, pos, next)
    decreases |data| - pos
  {
    var (s, p) := ReadString0(data, pos).value;
    var (t, end) := ParseTree(data, pos, level, files).value;
    match level
    case Extensions =>
      if s != [] {
        ParseTreeExtends(data, p, Directories(s), files);
      }
    case Directories(extension) =>
      if s == [] {
        ParseTreeExtends(data, p, Extensions, files);
      } else {
        ParseTreeExtends(data, p, Names(extension, s), files);
      }
    case Names(extension, directory) =>
      if s == [] {
        ParseTreeExtends(data, p, Directories(extension), files);
      } else {
        var (entry, next) := ReadFileRecord(data, p).value;
        var key := FullPath(extension, directory, s);
        assert ParseTree(data, pos, level, files) == ParseTree(data, next, level, files.Put(key, entry));
        ParseTreeExtends(data, next, level, files.Put(key, entry));
        ExtendsPut(files, key, entry, t, pos, next, end);
      }
  }

  /** An empty extension string ends the tree, whatever follows it. */
  lemma ParseStopsAtEmptyExtension(data: seq<u8>, pos: nat, files: FileTree)
    requires pos < |data| && data[pos] == 0
    ensures ParseTree(data, pos, Extensions, files) == Success((files, pos + 1))
  {
  }

  // One step of ParseTree at each level, for proofs that follow it step by step.

  lemma UnfoldExtensions(data: seq<u8>, pos: nat, files: FileTree)
    requires pos <= |data|
    ensures var read := ReadString0(data, pos);
      ParseTree(data, pos, Extensions, files) ==
        if read.Failure? then Failure(read.error)
        else if read.value.0 == [] then Success((files, read.value.1))
        else ParseTree(data, read.value.1, Directories(read.value.0), files)
  {
  }

  lemma UnfoldDirectories(data: seq<u8>, pos: nat, extension: string, files: FileTree)
    requires pos <= |data|
    ensures var read := ReadString0(data, pos);
      ParseTree(data, pos, Directories(extension), files) ==
        if read.Failure? then Failure(read.error)
        else if read.value.0 == [] then ParseTree(data, read.value.1, Extensions, files)
        else ParseTree(data, read.value.1, Names(extension, read.value.0), files)
  {
  }

  lemma UnfoldNames(data: seq<u8>, pos: nat, extension: string, directory: string, files: FileTree)
    requires pos <= |data|
    ensures var read := ReadString0(data, pos);
      ParseTree(data, pos, Names(extension, directory), files) ==
        if read.Failure? then Failure(read.error)
        else if read.value.0 == [] then ParseTree(data, read.value.1, Directories(extension), files)
        else
          var record := ReadFileRecord(data, read.value.1);
          if record.Failure? then Failure(record.error)
          else ParseTree(data, record.value.1, Names(extension, directory),
                         files.Put(FullPath(extension, directory, read.value.0), record.value.0))
  {
  }

  /** The body of the innermost loop of `vpkTree.read` after a file name:
      read the record, set its preload offset to the cursor, skip the preload
      bytes. */
  method ReadRecordAndSkip(data: seq<u8>, pos: nat) returns (r: Result<(Entry, nat)>)
    ensures r == ReadFileRecord(data, pos)
  {
    var record := ReadEntry(data, pos);
    if record.Failure? {
      return Failure(record.error);
    }
    var cursor := record.value.1;
    var entry := record.value.0.(preloadOffset := Some(cursor));
    if cursor + entry.preloadBytes > |data| {
      return Failure(OutOfBounds);
    }
    cursor := cursor + entry.preloadBytes;
    return Success((entry, cursor));
  }

  /** `vpkTree.read`: three nested loops over extension, directory and file
      name strings, filling the `files` dictionary as it goes. */
  method ReadTree(data: seq<u8>, start: nat) returns (r: Result<(FileTree, nat)>)
    requires start <= |data|
    ensures r == ParseTree(data, start, Extensions, EmptyTree)
  {
    var files := EmptyTree;
    var pos := start;
    ghost var goal := ParseTree(data, start, Extensions, EmptyTree);
    while true
      invariant pos <= |data|
      invariant ParseTree(data, pos, Extensions, files) == goal
      decreases |data| - pos
    {
      var ext := ReadString0(data, pos);
      UnfoldExtensions(data, pos, files);
      if ext.Failure? {
        return Failure(ext.error);
      }
      var extension := ext.value.0;
      ghost var extensionStart := pos;
      pos := ext.value.1;
      if extension == [] {
        return Success((files, pos));
      }
      while true
        invariant extensionStart < pos <= |data|
        invariant ParseTree(data, pos, Directories(extension), files) == goal
        decreases |data| - pos
      {
        var dir := ReadString0(data, pos);
        UnfoldDirectories(data, pos, extension, files);
        if dir.Failure? {
          return Failure(dir.error);
        }
        var directory := dir.value.0;
        pos := dir.value.1;
        if directory == [] {
          break;
        }
        while true
          invariant extensionStart < pos <= |data|
          invariant ParseTree(data, pos, Names(extension, directory), files) == goal
          decreases |data| - pos
        {
          var name := ReadString0(data, pos);
          UnfoldNames(data, pos, extension, directory, files);
          if name.Failure? {
            return Failure(name.error);
          }
          var filename := name.value.0;
          pos := name.value.1;
          if filename == [] {
            break;
          }
          var fullPath := FullPath(extension, directory, filename);
          var record := ReadRecordAndSkip(data, pos);
          if record.Failure? {
            return Failure(record.error);
          }
          var entry := record.value.0;
          pos := record.value.1;
          files := files.Put(fullPath, entry);
        }
      }
    }
  }
}
