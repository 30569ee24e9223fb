/** The records of the archive format (src/types.ts) and the failures the
    operations raise. */
module Types {
  import opened Bytes

  datatype Option<+T> = None | Some(value: T)

  /** Every `throw` of the source, one constructor per message. */
  datatype Error =
    | SignatureInvalid              // 'VPK signature is invalid'
    | VersionInvalid                // 'VPK version is invalid'
    | TerminatorInvalid             // 'Directory terminator is invalid'
    | OutOfBounds                   // a read or skip past the end of the buffer
    | LoadFailed(path: string)      // 'Failed loading ' + path
    | NoSuchFile                    // 'No such file in tree'
    | CrcMismatch                   // 'CRC does not match'
    | IoFailure(path: string)       // a file that cannot be opened, read or written
    | NotLoaded                     // 'VPK was not loaded and it failed loading'
    | DestinationDir                // 'Destination dir cant be ensured'
    | FileDirectory(dir: string)    // 'Error ensuring file directory: ' + dir
    | ExtractFailed(paths: seq<string>) // 'Failed extrating following files: ...'
    | VersionNotSupported           // 'Version not supported'
    | ValueOutOfRange               // writeUInt32LE of a value that needs more than 32 bits

  datatype Result<+T> = Success(value: T) | Failure(error: Error) {
    predicate IsFailure() { Failure? }
    function PropagateFailure<U>(): Result<U>
      requires Failure?
    {
      Failure(error)
    }
    function Extract(): T
      requires Success?
    {
      value
    }
  }

  datatype Outcome = Pass | Fail(error: Error)

  /** The four extra fields of a version-2 header, kept but never interpreted. */
  datatype V2Fields = V2Fields(unknown1: u32, footerLength: u32, unknown3: u32, unknown4: u32)

  /** `Header`: the version, the byte length of the tree section, and for
      version 2 the extra fields. */
  datatype Header = Header(version: u32, treeLength: u32, v2: Option<V2Fields>)

  /** `FileTreeEntry`: one directory record; `preloadOffset` is filled in by
      the tree reader. */
  datatype Entry = Entry(
    crc: u32,
    preloadBytes: u16,
    archiveIndex: u16,
    entryOffset: u32,
    entryLength: u32,
    preloadOffset: Option<nat>)

  /** `FileTree`: the object from flat path to entry. `keys` is the order in
      which the keys were first inserted (what `Object.keys` lists). */
  datatype FileTree = FileTree(keys: seq<string>, entries: map<string, Entry>) {

    ghost predicate Valid()
    {
      && (forall i, j | 0 <= i < j < |keys| :: keys[i] != keys[j])
      && (forall k :: k in entries <==> k in keys)
    }

    /** `files[key] = entry`: a new key goes to the end, an existing one keeps
        its place and gets the new entry. */
    function Put(key: string, entry: Entry): (t: FileTree)
      ensures Valid() ==> t.Valid()
      ensures t.entries == entries[key := entry]
      ensures key in entries ==> t.keys == keys
      ensures key !in entries ==> t.keys == keys + [key]
    {
      if key in entries then FileTree(keys, entries[key := entry])
      else FileTree(keys + [key], entries[key := entry])
    }
  }

  const EmptyTree: FileTree := FileTree([], map[])

  /** `FileData`: one source file the builder packs; `entrySize` and
      `dataOffset` are filled in by the builder's load. */
  datatype FileData = FileData(
    location: string,
    name: string,
    extension: string,
    crc: u32,
    dataSize: nat,
    fullPath: string,
    dataOffset: Option<nat>,
    entrySize: Option<nat>)
}
