/** The archive reader, class `VPK` (index.ts:119-265): loading the directory
    file, resolving an entry to its bytes across the directory file and the
    numbered companion archives, and extracting every file. */
module Reader {
  import opened Bytes
  import opened Types
  import opened Codec

  /** The archive index that means "the data is in the directory file". */
  const DIR_ARCHIVE: u16 := 0x7FFF
  const DIR_SUFFIX: string := "_dir.vpk"

  /** What the operations see of the file system: the bytes of every existing
      file, the paths whose writes fail, and the directories that cannot be
      created. Reads never change; writes are reported, not applied. */
  datatype FileSystem = FileSystem(
    contents: map<string, seq<u8>>,
    unwritable: set<string>,
    uncreatable: set<string>)

  /** The checksum the reader compares against `crc` (an external library). */
  type Crc32 = seq<u8> -> u32

  // ---------------------------------------------------------------------
  // Companion archive names

  function Digit(d: nat): char
    requires d < 10
  {
    "0123456789"[d]
  }

  /** A number written in decimal without leading zeros (JavaScript's `'' + n`). */
  function DecimalString(n: nat): (s: string)
    ensures |s| >= 1
    ensures n >= 10 ==> |s| >= 2
    decreases n
  {
    if n < 10 then [Digit(n)] else DecimalString(n / 10) + [Digit(n % 10)]
  }

  /** `('000' + index).slice(-3)`. */
  function ArchiveNumber(index: u16): (s: string)
    ensures |s| == 3
  {
    var padded := "000" + DecimalString(index);
    padded[|padded| - 3..]
  }

  /** The last character of a number's decimal text is its units digit. */
  lemma LastDigit(n: nat)
    ensures DecimalString(n)[|DecimalString(n)| - 1] == Digit(n % 10)
  {
  }

  lemma TenthOfTenth(n: nat)
    ensures n / 10 / 10 == n / 100
  {
    var q := n / 10;
    assert n == 10 * q + n % 10;
    assert q == 10 * (q / 10) + q % 10;
    assert n == 100 * (q / 10) + (10 * (q % 10) + n % 10);
  }

  /** From 100 on, the decimal text ends with the hundreds, tens and units
      digits. */
  lemma LastThreeDigits(n: nat)
    requires n >= 100
    ensures var d := DecimalString(n);
      |d| >= 3 && d[|d| - 3..] == [Digit(n / 100 % 10), Digit(n / 10 % 10), Digit(n % 10)]
  {
    var q := n / 10;
    assert q >= 10 && q / 10 == n / 100 by {
      TenthOfTenth(n);
    }
    var top := DecimalString(n / 100);
    assert DecimalString(n) == top + [Digit(q % 10)] + [Digit(n % 10)] by {
      assert DecimalString(q) == top + [Digit(q % 10)];
    }
    assert top[|top| - 1] == Digit(n / 100 % 10) by {
      LastDigit(n / 100);
    }
    LastThree(top, Digit(q % 10), Digit(n % 10));
  }

  lemma LastThree(x: string, b: char, c: char)
    requires x != []
    ensures var d := x + [b] + [c]; d[|d| - 3..] == [x[|x| - 1], b, c]
  {
  }

  /** The companion number is the last three decimal digits of the index:
      zero-padded below 100, and wrapping to `index % 1000` from 1000 on. */
  lemma ArchiveNumberDigits(index: u16)
    ensures ArchiveNumber(index) == [Digit(index / 100 % 10), Digit(index / 10 % 10), Digit(index % 10)]
  {
    var n: nat := index;
    var d := DecimalString(n);
    var padded := "000" + d;
    if n < 10 {
      assert d == [Digit(n)];
    } else if n < 100 {
      assert DecimalString(n / 10) == [Digit(n / 10)];
      assert d == [Digit(n / 10)] + [Digit(n % 10)];
    } else {
      LastThreeDigits(n);
      assert padded[|padded| - 3..] == d[|d| - 3..];
    }
  }

  /** The path of companion archive `index`: a trailing `_dir.vpk` replaced by
      `_NNN.vpk`; a path without that suffix is used as it is. */
  function ArchivePath(directoryPath: string, index: u16): (p: string)
    ensures |p| == |directoryPath|
    ensures !(|directoryPath| >= |DIR_SUFFIX| && directoryPath[|directoryPath| - |DIR_SUFFIX|..] == DIR_SUFFIX) ==>
      p == directoryPath
  {
    var n := |directoryPath|;
    if n >= |DIR_SUFFIX| && directoryPath[n - |DIR_SUFFIX|..] == DIR_SUFFIX then
      directoryPath[..n - |DIR_SUFFIX|] + "_" + ArchiveNumber(index) + ".vpk"
    else directoryPath
  }

  /** `<name>_dir.vpk` becomes `<name>_NNN.vpk`, NNN the index's last three
      digits, and the name keeps its length. */
  lemma ArchivePathOfDirectoryFile(name: string, index: u16)
    ensures ArchivePath(name + DIR_SUFFIX, index) ==
      name + ['_', Digit(index / 100 % 10), Digit(index / 10 % 10), Digit(index % 10)] + ".vpk"
    ensures |ArchivePath(name + DIR_SUFFIX, index)| == |name + DIR_SUFFIX|
  {
    var path := name + DIR_SUFFIX;
    assert path[|path| - |DIR_SUFFIX|..] == DIR_SUFFIX;
    assert path[..|path| - |DIR_SUFFIX|] == name;
    ArchiveNumberDigits(index);
  }

  // ---------------------------------------------------------------------
  // Resolving an entry

  /** Where the data section of the directory file starts: the tree length
      (0 before any header was read) plus the header's own length. */
  function DataBase(header: Option<Header>): (b: nat)
    ensures header.None? ==> b == 0
    ensures header.Some? ==> b == header.value.treeLength + HeaderLength(header.value.version)
  {
    match header
    case None => 0
    case Some(h) => h.treeLength + HeaderLength(h.version)
  }

  /** The file and absolute offset that hold an entry's main data. */
  function Locate(directoryPath: string, header: Option<Header>, e: Entry): (loc: (string, nat))
    ensures e.archiveIndex == DIR_ARCHIVE ==> loc.0 == directoryPath && loc.1 >= e.entryOffset
    ensures e.archiveIndex != DIR_ARCHIVE ==> loc.1 == e.entryOffset && |loc.0| == |directoryPath|
  {
    if e.archiveIndex == DIR_ARCHIVE then (directoryPath, DataBase(header) + e.entryOffset)
    else (ArchivePath(directoryPath, e.archiveIndex), e.entryOffset)
  }

  /** Data in the directory file starts after the header (12 or 28 bytes) and
      the tree; data in a companion archive is at the raw offset, whatever the
      header says. */
  lemma LocateRules(directoryPath: string, header: Header, e: Entry)
    requires header.version == 1 || header.version == 2
    ensures e.archiveIndex == DIR_ARCHIVE ==>
      Locate(directoryPath, Some(header), e) ==
        (directoryPath, header.treeLength + (if header.version == 1 then 12 else 28) + e.entryOffset)
    ensures e.archiveIndex != DIR_ARCHIVE ==>
      Locate(directoryPath, Some(header), e) == Locate(directoryPath, None, e) ==
        (ArchivePath(directoryPath, e.archiveIndex), e.entryOffset)
  {
  }

  /** The first part of the buffer `getFile` assembles: `preloadBytes` bytes
      read from the directory file at the preload offset, zeros where the
      file ends early. */
  function PreloadPart(fs: FileSystem, directoryPath: string, e: Entry): (p: seq<u8>)
    requires e.preloadOffset.Some?
    requires e.preloadBytes > 0 ==> directoryPath in fs.contents
    ensures |p| == e.preloadBytes
  {
    if e.preloadBytes == 0 then []
    else Padded(Window(fs.contents[directoryPath], e.preloadOffset.value, e.preloadBytes), e.preloadBytes)
  }

  /** The second part: `entryLength` bytes read from where `Locate` says. */
  function MainPart(fs: FileSystem, directoryPath: string, header: Option<Header>, e: Entry): (p: seq<u8>)
    requires e.entryLength > 0 ==> Locate(directoryPath, header, e).0 in fs.contents
    ensures |p| == e.entryLength
  {
    if e.entryLength == 0 then []
    else
      var (source, offset) := Locate(directoryPath, header, e);
      Padded(Window(fs.contents[source], offset, e.entryLength), e.entryLength)
  }

  /** The preload part holds the directory file's bytes from the preload
      offset on, and zeros where that file ends early. */
  lemma PreloadContents(fs: FileSystem, directoryPath: string, e: Entry)
    requires e.preloadOffset.Some?
    requires e.preloadBytes > 0 ==> directoryPath in fs.contents
    ensures e.preloadBytes > 0 ==>
      var dir := fs.contents[directoryPath];
      var po := e.preloadOffset.value;
      && (forall i | 0 <= i < e.preloadBytes ::
            PreloadPart(fs, directoryPath, e)[i] == if po + i < |dir| then dir[po + i] else 0)
      && (po + e.preloadBytes <= |dir| ==> PreloadPart(fs, directoryPath, e) == dir[po..po + e.preloadBytes])
  {
    if e.preloadBytes > 0 {
      PaddedWindow(fs.contents[directoryPath], e.preloadOffset.value, e.preloadBytes);
    }
  }

  /** The main part holds the bytes of the file `Locate` names from the
      offset it gives on, and zeros where that file ends early. */
  lemma MainContents(fs: FileSystem, directoryPath: string, header: Option<Header>, e: Entry)
    requires e.entryLength > 0 ==> Locate(directoryPath, header, e).0 in fs.contents
    ensures e.entryLength > 0 ==>
      var (source, offset) := Locate(directoryPath, header, e);
      var file := fs.contents[source];
      && (forall i | 0 <= i < e.entryLength ::
            MainPart(fs, directoryPath, header, e)[i] == if offset + i < |file| then file[offset + i] else 0)
      && (offset + e.entryLength <= |file| ==>
            MainPart(fs, directoryPath, header, e) == file[offset..offset + e.entryLength])
  {
    if e.entryLength > 0 {
      var (source, offset) := Locate(directoryPath, header, e);
      PaddedWindow(fs.contents[source], offset, e.entryLength);
    }
  }

  /** The buffer `getFile` assembles before its checksum test, or the path
      of the first file it cannot open. */
  function Retrieve(fs: FileSystem, directoryPath: string, header: Option<Header>, e: Entry): (r: Result<seq<u8>>)
    requires e.preloadOffset.Some?
    ensures r.Success? ==> |r.value| == e.preloadBytes + e.entryLength
    ensures r.Failure? <==>
      || (e.preloadBytes > 0 && directoryPath !in fs.contents)
      || (e.entryLength > 0 && Locate(directoryPath, header, e).0 !in fs.contents)
    ensures r.Failure? ==> r.error.IoFailure?
  {
    if e.preloadBytes > 0 && directoryPath !in fs.contents then Failure(IoFailure(directoryPath))
    else if e.entryLength > 0 && Locate(directoryPath, header, e).0 !in fs.contents then
      Failure(IoFailure(Locate(directoryPath, header, e).0))
    else Success(PreloadPart(fs, directoryPath, e) + MainPart(fs, directoryPath, header, e))
  }

  /** Reading `w` into a zeroed stretch of `n` bytes of a buffer leaves `w`
      padded with zeros there and the rest untouched. */
  lemma OverlayZeros(prefix: seq<u8>, w: seq<u8>, n: nat, suffix: seq<u8>)
    requires |w| <= n
    ensures Overlay(prefix + Zeros(n) + suffix, |prefix|, w) == prefix + Padded(w, n) + suffix
  {
    var buf := prefix + Zeros(n) + suffix;
    assert buf[|prefix| + |w|..] == Zeros(n - |w|) + suffix;
    assert buf[..|prefix|] == prefix;
  }

  /** `getFile` refuses a missing key and an entry without a (non-zero)
      preload offset. */
  predicate Resolvable(tree: FileTree, path: string)
  {
    path in tree.entries && tree.entries[path].preloadOffset.Some? && tree.entries[path].preloadOffset.value != 0
  }

  /** What `getFile(path)` returns. */
  function Fetch(fs: FileSystem, crc32: Crc32, directoryPath: string, header: Option<Header>, tree: FileTree, path: string)
    : (r: Result<seq<u8>>)
    ensures r == Failure(NoSuchFile) <==> !Resolvable(tree, path)
    ensures r.Success? ==>
      var e := tree.entries[path];
      && Retrieve(fs, directoryPath, header, e) == r
      && |r.value| == e.preloadBytes + e.entryLength
      && crc32(r.value) == e.crc
    ensures r == Failure(CrcMismatch) <==>
      Resolvable(tree, path) &&
      var e := tree.entries[path];
      Retrieve(fs, directoryPath, header, e).Success? && crc32(Retrieve(fs, directoryPath, header, e).value) != e.crc
  {
    if !Resolvable(tree, path) then Failure(NoSuchFile)
    else
      var e := tree.entries[path];
      var file :- Retrieve(fs, directoryPath, header, e);
      if crc32(file) != e.crc then Failure(CrcMismatch) else Success(file)
  }

  /** `getFile(path)` succeeds exactly when the entry resolves, its buffer
      can be assembled and the buffer's checksum matches the entry's; a file
      it cannot open is reported as it is. */
  lemma FetchSucceeds(fs: FileSystem, crc32: Crc32, directoryPath: string, header: Option<Header>, tree: FileTree, path: string)
    ensures Fetch(fs, crc32, directoryPath, header, tree, path).Success? <==>
      Resolvable(tree, path) &&
      var got := Retrieve(fs, directoryPath, header, tree.entries[path]);
      got.Success? && crc32(got.value) == tree.entries[path].crc
    ensures Resolvable(tree, path) && Retrieve(fs, directoryPath, header, tree.entries[path]).Failure? ==>
      Fetch(fs, crc32, directoryPath, header, tree, path) == Retrieve(fs, directoryPath, header, tree.entries[path])
  {
  }

  // ---------------------------------------------------------------------
  // Loading

  /** The fields of a `VPK` instance. */
  datatype ReaderState = ReaderState(loaded: bool, header: Option<Header>, tree: FileTree)

  /** A well-formed tree all of whose keys `getFile` accepts. */
  ghost predicate ValidState(s: ReaderState)
  {
    s.tree.Valid() && forall k | k in s.tree.entries :: Resolvable(s.tree, k)
  }

  /** What `load` does to the state: a directory file that cannot be read
      fails unwrapped; a bad header changes nothing; a bad tree leaves the new
      header in place but keeps the old tree and `loaded` flag. */
  function LoadStep(fs: FileSystem, directoryPath: string, s: ReaderState): (step: (ReaderState, Outcome))
    ensures step.1 == Pass ==> step.0.loaded && step.0.header.Some?
    ensures step.1.Fail? ==> step.0.tree == s.tree && step.0.loaded == s.loaded
    ensures directoryPath !in fs.contents ==> step == (s, Fail(IoFailure(directoryPath)))
    ensures directoryPath in fs.contents && ReadHeader(fs.contents[directoryPath]).Failure? ==>
      step == (s, Fail(LoadFailed(directoryPath)))
  {
    if directoryPath !in fs.contents then (s, Fail(IoFailure(directoryPath)))
    else
      var data := fs.contents[directoryPath];
      match ReadHeader(data)
      case Failure(_) => (s, Fail(LoadFailed(directoryPath)))
      case Success((h, next)) =>
        match ParseTree(data, next, Extensions, EmptyTree)
        case Failure(_) => (s.(header := Some(h)), Fail(LoadFailed(directoryPath)))
        case Success((t, _)) => (ReaderState(true, Some(h), t), Pass)
  }

  /** `load` passes exactly when the header and then the tree parse; it then
      installs both and sets `loaded`. A tree that does not parse leaves the
      new header in place (it was assigned before the tree read threw). */
  lemma LoadInstalls(fs: FileSystem, directoryPath: string, s: ReaderState)
    requires directoryPath in fs.contents
    ensures var data := fs.contents[directoryPath];
      var step := LoadStep(fs, directoryPath, s);
      && (step.1 == Pass <==>
            ReadHeader(data).Success? && ParseTree(data, ReadHeader(data).value.1, Extensions, EmptyTree).Success?)
      && (step.1 == Pass ==>
            step.0 == ReaderState(true, Some(ReadHeader(data).value.0),
                                  ParseTree(data, ReadHeader(data).value.1, Extensions, EmptyTree).value.0))
      && (ReadHeader(data).Success? && ParseTree(data, ReadHeader(data).value.1, Extensions, EmptyTree).Failure? ==>
            step == (s.(header := Some(ReadHeader(data).value.0)), Fail(LoadFailed(directoryPath))))
  {
  }

  /** Loading keeps the state valid: a parsed tree starts after a header of at
      least 12 bytes, so every preload offset is non-zero, and a successful
      load holds a version-1 or version-2 header. */
  lemma LoadKeepsValid(fs: FileSystem, directoryPath: string, s: ReaderState)
    requires ValidState(s)
    ensures ValidState(LoadStep(fs, directoryPath, s).0)
    ensures LoadStep(fs, directoryPath, s).1 == Pass ==>
      var s' := LoadStep(fs, directoryPath, s).0;
      s'.loaded && s'.header.Some? && (s'.header.value.version == 1 || s'.header.value.version == 2)
    ensures LoadStep(fs, directoryPath, s).1.Fail? ==>
      var s' := LoadStep(fs, directoryPath, s).0;
      s'.tree == s.tree && s'.loaded == s.loaded
  {
    if directoryPath in fs.contents {
      var data := fs.contents[directoryPath];
      if ReadHeader(data).Success? {
        var (h, next) := ReadHeader(data).value;
        var parsed := ParseTree(data, next, Extensions, EmptyTree);
        if parsed.Success? {
          ParseTreeExtends(data, next, Extensions, EmptyTree);
          var t := parsed.value.0;
          forall k | k in t.entries
            ensures Resolvable(t, k)
          {
            assert PreloadInside(t.entries[k], next, parsed.value.1);
          }
        }
      }
    }
  }

  // ---------------------------------------------------------------------
  // Extraction

  /** The index of the last '/' of `s`, or -1. */
  function LastSlash(s: string): (i: int)
    ensures -1 <= i < |s|
    ensures i >= 0 ==> s[i] == '/'
    ensures forall j | i < j < |s| :: s[j] != '/'
    decreases |s|
  {
    if s == [] then -1
    else if s[|s| - 1] == '/' then |s| - 1
    else LastSlash(s[..|s| - 1])
  }

  /** `path.substr(0, path.lastIndexOf('/'))`: everything before the last
      slash, or "" when there is none. */
  function ParentDir(path: string): (dir: string)
  {
    var i := LastSlash(path);
    if i < 0 then "" else path[..i]
  }

  /** The directory of a path is the part before its last slash: a prefix
      of the path followed by that slash, or "" when there is no slash. */
  lemma ParentDirSplit(path: string)
    ensures var dir := ParentDir(path);
      && |dir| <= |path| && dir == path[..|dir|]
      && ('/' !in path ==> dir == "")
      && ('/' in path ==> |dir| < |path| && path[|dir|] == '/' && '/' !in path[|dir| + 1..])
  {
    var i := LastSlash(path);
    if '/' in path {
      var j :| 0 <= j < |path| && path[j] == '/';
      assert i >= 0;
      var rest := path[i + 1..];
      assert forall k | 0 <= k < |rest| :: rest[k] == path[i + 1 + k];
    }
  }

  lemma {:induction false} LastSlashAfter(prefix: string, key: string)
    ensures LastSlash(prefix + "/" + key) == if '/' in key then |prefix| + 1 + LastSlash(key) else |prefix|
    decreases |key|
  {
    var s := prefix + "/" + key;
    if key == [] {
      assert s[|s| - 1] == '/';
    } else {
      assert s[..|s| - 1] == prefix + "/" + key[..|key| - 1];
      if key[|key| - 1] != '/' {
        LastSlashAfter(prefix, key[..|key| - 1]);
        assert ('/' in key) == ('/' in key[..|key| - 1]) by {
          assert key == key[..|key| - 1] + [key[|key| - 1]];
        }
        assert LastSlash(key) == LastSlash(key[..|key| - 1]);
      }
    }
  }

  /** The directory `extract` ensures for a file: the destination itself for a
      key without '/', else the destination joined with the key's directory. */
  lemma ParentDirOfDestination(destinationDir: string, key: string)
    ensures ParentDir(destinationDir + "/" + key) ==
      if '/' in key then destinationDir + "/" + ParentDir(key) else destinationDir
  {
    var s := destinationDir + "/" + key;
    LastSlashAfter(destinationDir, key);
    if '/' in key {
      var i := LastSlash(key);
      assert s[..|destinationDir| + 1 + i] == destinationDir + "/" + key[..i];
    } else {
      assert s[..|destinationDir|] == destinationDir;
    }
  }

  /** What the extraction loop has done so far: the files written (path and
      bytes), the destinations whose write failed, and the error that stopped
      it, if any. */
  datatype Extraction = Extraction(written: seq<(string, seq<u8>)>, failed: seq<string>, aborted: Option<Error>)

  /** What `getFile` depends on: the file system, the checksum, the
      directory path and the loaded header and tree. */
  datatype Archive = Archive(fs: FileSystem, crc32: Crc32, directoryPath: string, header: Option<Header>, tree: FileTree)
  {
    function Get(path: string): Result<seq<u8>>
    {
      Fetch(fs, crc32, directoryPath, header, tree, path)
    }
  }

  /** The extraction loop over `keys`: ensure the file's directory (abort on
      failure), get the file (abort on failure), write it (record a failure and
      go on). */
  function ExtractKeys(a: Archive, destinationDir: string, keys: seq<string>): (x: Extraction)
    ensures |x.written| + |x.failed| <= |keys|
    decreases |keys|
  {
    if keys == [] then Extraction([], [], None)
    else ExtractNext(a, destinationDir, ExtractKeys(a, destinationDir, keys[..|keys| - 1]), keys[|keys| - 1])
  }

  /** One iteration of the extraction loop, for `key`, after `before`. */
  function ExtractNext(a: Archive, destinationDir: string, before: Extraction, key: string): (after: Extraction)
    ensures |after.written| + |after.failed| <= |before.written| + |before.failed| + 1
    ensures after.aborted.None? <==> before.aborted.None? && Extractable(a, destinationDir, key)
    ensures before.aborted.Some? ==> after == before
  {
    if before.aborted.Some? then before
    else
      var destFile := destinationDir + "/" + key;
      var fileDestDir := ParentDir(destFile);
      if fileDestDir in a.fs.uncreatable then before.(aborted := Some(FileDirectory(fileDestDir)))
      else
        match a.Get(key)
        case Failure(e) => before.(aborted := Some(e))
        case Success(bytes) =>
          if destFile in a.fs.unwritable then before.(failed := before.failed + [destFile])
          else before.(written := before.written + [(destFile, bytes)])
  }

  /** Once the loop has aborted, no later key is attempted. */
  lemma {:induction false} ExtractAbortIsFinal(a: Archive, destinationDir: string, keys: seq<string>, j: nat)
    requires j <= |keys|
    requires ExtractKeys(a, destinationDir, keys[..j]).aborted.Some?
    ensures ExtractKeys(a, destinationDir, keys) == ExtractKeys(a, destinationDir, keys[..j])
    decreases |keys|
  {
    if j < |keys| {
      assert keys[..|keys| - 1][..j] == keys[..j];
      ExtractAbortIsFinal(a, destinationDir, keys[..|keys| - 1], j);
    } else {
      assert keys[..j] == keys;
    }
  }

  /** A key `extract` can get through: its directory can be created and
      `getFile` succeeds. */
  predicate Extractable(a: Archive, destinationDir: string, key: string)
  {
    ParentDir(destinationDir + "/" + key) !in a.fs.uncreatable && a.Get(key).Success?
  }

  /** The loop runs to the end exactly when every key can be extracted. */
  lemma {:induction false} ExtractCompletes(a: Archive, destinationDir: string, keys: seq<string>)
    ensures ExtractKeys(a, destinationDir, keys).aborted.None? <==>
            forall i | 0 <= i < |keys| :: Extractable(a, destinationDir, keys[i])
    decreases |keys|
  {
    if keys != [] {
      var init := keys[..|keys| - 1];
      ExtractCompletes(a, destinationDir, init);
      assert ExtractKeys(a, destinationDir, keys)
          == ExtractNext(a, destinationDir, ExtractKeys(a, destinationDir, init), keys[|keys| - 1]);
      AllExtractable(a, destinationDir, keys, init);
    }
  }

  /** Every key is extractable exactly when every key but the last is and
      the last one is. */
  lemma AllExtractable(a: Archive, destinationDir: string, keys: seq<string>, init: seq<string>)
    requires keys != [] && init == keys[..|keys| - 1]
    ensures (forall i | 0 <= i < |keys| :: Extractable(a, destinationDir, keys[i])) <==>
      (forall i | 0 <= i < |init| :: Extractable(a, destinationDir, init[i]))
      && Extractable(a, destinationDir, keys[|keys| - 1])
  {
    assert forall i | 0 <= i < |init| :: init[i] == keys[i];
  }

  /** The destinations among `keys` whose write fails, in order. */
  function UnwritableDestinations(fs: FileSystem, destinationDir: string, keys: seq<string>): seq<string>
  {
    if keys == [] then []
    else
      var rest := UnwritableDestinations(fs, destinationDir, keys[..|keys| - 1]);
      var destFile := destinationDir + "/" + keys[|keys| - 1];
      if destFile in fs.unwritable then rest + [destFile] else rest
  }

  /** The destinations among `keys` that are writable and whose `getFile`
      succeeds, with the bytes it returns, in order. */
  function WritableWrites(a: Archive, destinationDir: string, keys: seq<string>): seq<(string, seq<u8>)>
  {
    if keys == [] then []
    else
      var rest := WritableWrites(a, destinationDir, keys[..|keys| - 1]);
      var key := keys[|keys| - 1];
      var destFile := destinationDir + "/" + key;
      if destFile !in a.fs.unwritable && a.Get(key).Success? then rest + [(destFile, a.Get(key).value)] else rest
  }

  /** A loop that ran to the end reports exactly the unwritable destinations,
      in visit order, and wrote every other file, in visit order. */
  lemma {:induction false} ExtractFailures(a: Archive, destinationDir: string, keys: seq<string>)
    requires ExtractKeys(a, destinationDir, keys).aborted.None?
    ensures ExtractKeys(a, destinationDir, keys).failed == UnwritableDestinations(a.fs, destinationDir, keys)
    ensures ExtractKeys(a, destinationDir, keys).written == WritableWrites(a, destinationDir, keys)
    ensures |ExtractKeys(a, destinationDir, keys).written| + |ExtractKeys(a, destinationDir, keys).failed| == |keys|
    decreases |keys|
  {
    if keys != [] {
      var init := keys[..|keys| - 1];
      assert ExtractKeys(a, destinationDir, keys)
          == ExtractNext(a, destinationDir, ExtractKeys(a, destinationDir, init), keys[|keys| - 1]);
      ExtractFailures(a, destinationDir, init);
    }
  }

  /** A loop that ran to the end wrote every key with a writable destination,
      with the bytes `getFile` returns for it. */
  lemma ExtractWritesAll(a: Archive, destinationDir: string, keys: seq<string>)
    requires ExtractKeys(a, destinationDir, keys).aborted.None?
    ensures forall k | k in keys && destinationDir + "/" + k !in a.fs.unwritable ::
      a.Get(k).Success? && (destinationDir + "/" + k, a.Get(k).value) in ExtractKeys(a, destinationDir, keys).written
  {
    ExtractCompletes(a, destinationDir, keys);
    ExtractFailures(a, destinationDir, keys);
    forall k | k in keys && destinationDir + "/" + k !in a.fs.unwritable
      ensures a.Get(k).Success? && (destinationDir + "/" + k, a.Get(k).value) in WritableWrites(a, destinationDir, keys)
    {
      var i :| 0 <= i < |keys| && keys[i] == k;
      assert Extractable(a, destinationDir, keys[i]);
      WritableWritesHas(a, destinationDir, keys, k);
    }
  }

  lemma {:induction false} WritableWritesHas(a: Archive, destinationDir: string, keys: seq<string>, k: string)
    requires k in keys && destinationDir + "/" + k !in a.fs.unwritable && a.Get(k).Success?
    ensures (destinationDir + "/" + k, a.Get(k).value) in WritableWrites(a, destinationDir, keys)
    decreases |keys|
  {
    var init := keys[..|keys| - 1];
    if k != keys[|keys| - 1] {
      assert k in init by {
        var i :| 0 <= i < |keys| && keys[i] == k;
        assert init[i] == k;
      }
      WritableWritesHas(a, destinationDir, init, k);
    }
  }

  /** Everything written went to a writable destination of one of the keys,
      with the bytes `getFile` returns for that key. */
  lemma {:induction false} ExtractWritesFetched(a: Archive, destinationDir: string, keys: seq<string>)
    ensures forall w | w in ExtractKeys(a, destinationDir, keys).written ::
      w.0 !in a.fs.unwritable &&
      exists k | k in keys :: w.0 == destinationDir + "/" + k && a.Get(k) == Success(w.1)
    decreases |keys|
  {
    if keys != [] {
      var init := keys[..|keys| - 1];
      ExtractWritesFetched(a, destinationDir, init);
      var before := ExtractKeys(a, destinationDir, init);
      forall w | w in ExtractKeys(a, destinationDir, keys).written
        ensures w.0 !in a.fs.unwritable &&
          exists k | k in keys :: w.0 == destinationDir + "/" + k && a.Get(k) == Success(w.1)
      {
        if w in before.written {
          var k :| k in init && w.0 == destinationDir + "/" + k && a.Get(k) == Success(w.1);
          assert k in keys;
        } else {
          assert keys[|keys| - 1] in keys;
        }
      }
    }
  }

  /** What `extract` hands back once the loop is over: the files written, and
      the aborting error, or the list of failed writes, or success. */
  function ExtractReport(x: Extraction): (report: (seq<(string, seq<u8>)>, Outcome))
    ensures report.0 == x.written
    ensures report.1 == Pass <==> x.aborted.None? && x.failed == []
    ensures x.aborted.Some? ==> report.1 == Fail(x.aborted.value)
    ensures x.aborted.None? && x.failed != [] ==> report.1 == Fail(ExtractFailed(x.failed))
  {
    (x.written,
     if x.aborted.Some? then Fail(x.aborted.value)
     else if x.failed != [] then Fail(ExtractFailed(x.failed))
     else Pass)
  }

  lemma ReadMain(before: seq<u8>, main: seq<u8>, n: nat)
    requires |main| <= n
    ensures Overlay(before + Zeros(n), |before|, main) == before + Padded(main, n)
  {
    OverlayZeros(before, main, n, []);
    assert before + Zeros(n) + [] == before + Zeros(n);
    assert before + Padded(main, n) + [] == before + Padded(main, n);
  }

  // ---------------------------------------------------------------------
  // The reader object

  class Vpk {
    const directoryPath: string
    var loaded: bool
    var header: Option<Header>
    var tree: FileTree

    ghost function State(): ReaderState
      reads this
    {
      ReaderState(loaded, header, tree)
    }

    ghost predicate Valid()
      reads this
    {
      ValidState(State())
    }

    /** `new VPK(path)`: nothing loaded, the header empty. */
    constructor (path: string)
      ensures Valid()
      ensures directoryPath == path && !loaded && header == None && tree == EmptyTree
    {
      directoryPath := path;
      loaded := false;
      header := None;
      tree := EmptyTree;
    }

    /** `load`: read the directory file, parse the header (assigned at once)
        and then the tree. */
    method Load(fs: FileSystem) returns (r: Outcome)
      requires Valid()
      modifies this
      ensures Valid()
      ensures (State(), r) == LoadStep(fs, directoryPath, old(State()))
    {
      if directoryPath !in fs.contents {
        return Fail(IoFailure(directoryPath));
      }
      var data := fs.contents[directoryPath];
      var h := ReadHeader(data);
      if h.Failure? {
        return Fail(LoadFailed(directoryPath));
      }
      header := Some(h.value.0);
      var t := ReadTree(data, h.value.1);
      if t.Failure? {
        LoadKeepsValid(fs, directoryPath, old(State()));
        return Fail(LoadFailed(directoryPath));
      }
      tree := t.value.0;
      loaded := true;
      LoadKeepsValid(fs, directoryPath, old(State()));
      return Pass;
    }

    /** The `files` getter: every key of the tree once, in insertion order. */
    function Files(): (keys: seq<string>)
      reads this
      requires Valid()
      ensures forall k :: k in keys <==> k in tree.entries
      ensures forall i, j | 0 <= i < j < |keys| :: keys[i] != keys[j]
    {
      tree.keys
    }

    /** `getFile(path)`: look the entry up, assemble its bytes, check the
        checksum. */
    method GetFile(fs: FileSystem, crc32: Crc32, path: string) returns (r: Result<seq<u8>>)
      ensures r == Fetch(fs, crc32, directoryPath, header, tree, path)
    {
      if path !in tree.entries || tree.entries[path].preloadOffset.None? || tree.entries[path].preloadOffset.value == 0 {
        return Failure(NoSuchFile);
      }
      var entry := tree.entries[path];
      var file := Assemble(fs, entry);
      if file.Failure? {
        return Failure(file.error);
      }
      if crc32(file.value) != entry.crc {
        return Failure(CrcMismatch);
      }
      return Success(file.value);
    }

    /** The body of `getFile` between the lookup and the checksum: allocate a
        zeroed buffer, read the preload bytes into its front and the main
        data after them. */
    method Assemble(fs: FileSystem, entry: Entry) returns (r: Result<seq<u8>>)
      requires entry.preloadOffset.Some?
      ensures r == Retrieve(fs, directoryPath, header, entry)
    {
      var file := Zeros(entry.preloadBytes + entry.entryLength);
      assert file == Zeros(entry.preloadBytes) + Zeros(entry.entryLength);
      if entry.preloadBytes > 0 {
        if directoryPath !in fs.contents {
          return Failure(IoFailure(directoryPath));
        }
        var preload := Window(fs.contents[directoryPath], entry.preloadOffset.value, entry.preloadBytes);
        OverlayZeros([], preload, entry.preloadBytes, Zeros(entry.entryLength));
        assert [] + Zeros(entry.preloadBytes) + Zeros(entry.entryLength) == file;
        file := Overlay(file, 0, preload);
        assert file == [] + PreloadPart(fs, directoryPath, entry) + Zeros(entry.entryLength);
      }
      ghost var before := PreloadPart(fs, directoryPath, entry);
      assert file == before + Zeros(entry.entryLength);
      if entry.entryLength > 0 {
        var source, offset;
        if entry.archiveIndex == DIR_ARCHIVE {
          offset := if header.Some? then header.value.treeLength else 0;
          if header.Some? && header.value.version == 1 {
            offset := offset + HEADER_1_LENGTH;
          } else if header.Some? && header.value.version == 2 {
            offset := offset + HEADER_2_LENGTH;
          }
          source, offset := directoryPath, offset + entry.entryOffset;
        } else {
          source, offset := ArchivePath(directoryPath, entry.archiveIndex), entry.entryOffset;
        }
        assert (source, offset) == Locate(directoryPath, header, entry);
        if source !in fs.contents {
          return Failure(IoFailure(source));
        }
        var main := Window(fs.contents[source], offset, entry.entryLength);
        ReadMain(before, main, entry.entryLength);
        file := Overlay(file, entry.preloadBytes, main);
      }
      return Success(file);
    }

    /** `extract(destinationDir)`: load if needed, ensure the destination,
        then extract the files one by one. */
    method Extract(fs: FileSystem, crc32: Crc32, destinationDir: string)
      returns (written: seq<(string, seq<u8>)>, r: Outcome)
      requires Valid()
      modifies this
      ensures Valid()
      ensures old(loaded) ==> State() == old(State())
      ensures !old(loaded) ==> State() == LoadStep(fs, directoryPath, old(State())).0
      ensures !loaded ==> written == [] && r == Fail(NotLoaded)
      ensures loaded && destinationDir in fs.uncreatable ==> written == [] && r == Fail(DestinationDir)
      ensures loaded && destinationDir !in fs.uncreatable ==>
        ExtractReport(ExtractKeys(Archive(fs, crc32, directoryPath, header, tree), destinationDir, tree.keys))
          == (written, r)
    {
      if !loaded {
        var loading := Load(fs);
        if loading.Fail? {
          LoadKeepsValid(fs, directoryPath, old(State()));
          return [], Fail(NotLoaded);
        }
      }
      if destinationDir in fs.uncreatable {
        return [], Fail(DestinationDir);
      }
      written, r := ExtractFiles(fs, crc32, destinationDir);
    }

    /** The loop of `extract`: a failing directory or `getFile` aborts at
        once, failing writes are collected and reported together at the end. */
    method ExtractFiles(fs: FileSystem, crc32: Crc32, destinationDir: string)
      returns (written: seq<(string, seq<u8>)>, r: Outcome)
      requires Valid()
      ensures ExtractReport(ExtractKeys(Archive(fs, crc32, directoryPath, header, tree), destinationDir, tree.keys))
          == (written, r)
    {
      ghost var a := Archive(fs, crc32, directoryPath, header, tree);
      var failed: seq<string> := [];
      written := [];
      var keys := Files();
      for i := 0 to |keys|
        invariant Extraction(written, failed, None) == ExtractKeys(a, destinationDir, keys[..i])
      {
        assert keys[..i + 1][..i] == keys[..i];
        assert ExtractKeys(a, destinationDir, keys[..i + 1])
            == ExtractNext(a, destinationDir, ExtractKeys(a, destinationDir, keys[..i]), keys[i]);
        var destFile := destinationDir + "/" + keys[i];
        var fileDestDir := ParentDir(destFile);
        if fileDestDir in fs.uncreatable {
          ExtractAbortIsFinal(a, destinationDir, keys, i + 1);
          return written, Fail(FileDirectory(fileDestDir));
        }
        var file := GetFile(fs, crc32, keys[i]);
        if file.Failure? {
          ExtractAbortIsFinal(a, destinationDir, keys, i + 1);
          return written, Fail(file.error);
        }
        if destFile in fs.unwritable {
          failed := failed + [destFile];
        } else {
          written := written + [(destFile, file.value)];
        }
      }
      assert keys[..|keys|] == keys;
      if failed != [] {
        return written, Fail(ExtractFailed(failed));
      }
      return written, Pass;
    }
  }
}
