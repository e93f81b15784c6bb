/**
 * Reading a tar archive out of storage: where each entry's data lies and
 * the storage key of that data, with entries 512-byte aligned, and what
 * each entry writes into the filesystem.
 */
module TarEntries {
  import opened Wrappers
  import opened Ints
  import opened ImageErrors
  import opened StorageKeys
  import VfsNodes
  import VfsWrite
  import VfsFilesystem

  const BLOCK_LEN: nat := 512

  /** The size rounded up to a whole number of blocks, as a `usize` (so it must not overflow). */
  function PadToBlockMultiple(size: usize): (r: usize)
    requires size + BLOCK_LEN <= TWO_64
  {
    var rem := size % BLOCK_LEN;
    if rem == 0 then size else size + (BLOCK_LEN - rem)
  }

  /** The padded size is the least multiple of the block length not below the size. */
  lemma PadBounds(size: usize)
    requires size + BLOCK_LEN <= TWO_64
    ensures PadToBlockMultiple(size) % BLOCK_LEN == 0
    ensures size <= PadToBlockMultiple(size) < size + BLOCK_LEN
  {
  }

  /** Multiples of the block length are left alone, so padding twice is padding once. */
  lemma PadIdempotent(size: usize)
    requires size + 2 * BLOCK_LEN <= TWO_64
    ensures size % BLOCK_LEN == 0 ==> PadToBlockMultiple(size) == size
    ensures PadToBlockMultiple(PadToBlockMultiple(size)) == PadToBlockMultiple(size)
  {
    PadBounds(size);
  }

  /**
   * What the tar reader reports for one entry: where its data starts,
   * relative to the header it was read from, and how many bytes it holds.
   */
  datatype Entry = Entry(raw_file_position: nat, size: nat)

  /** The entry read at `offset` starts its data here. */
  function FileBegin(offset: nat, e: Entry): nat { offset + e.raw_file_position }

  /** The data of an entry, as a range of the archive. */
  function FileRange(offset: nat, e: Entry): ByteRange
    requires FileBegin(offset, e) + e.size < TWO_64
  {
    ByteRange(FileBegin(offset, e), FileBegin(offset, e) + e.size)
  }

  /**
   * No arithmetic of the loop overflows a `usize`: every data end, padded,
   * and every range of the archive fits.
   */
  predicate Fits(archive: StorageKey, entries: seq<Entry>, offset: nat)
    decreases |entries|
  {
    entries != [] ==>
      var e := entries[0];
      var end := FileBegin(offset, e) + e.size;
      && end + BLOCK_LEN <= TWO_64
      && archive.Base() + end < TWO_64
      && Fits(archive, entries[1..], PadToBlockMultiple(end))
  }

  /** The header offsets at which the entries are read: each after the padded end of the one before. */
  function Offsets(archive: StorageKey, entries: seq<Entry>, offset: nat): (offs: seq<nat>)
    requires Fits(archive, entries, offset)
    ensures |offs| == |entries|
    decreases |entries|
  {
    if entries == [] then []
    else
      var end := FileBegin(offset, entries[0]) + entries[0].size;
      [offset] + Offsets(archive, entries[1..], PadToBlockMultiple(end))
  }

  /** The storage key of one entry's data: none for an empty entry, else the range of the archive. */
  function EntryKey(archive: StorageKey, offset: nat, e: Entry): (r: Result<Option<StorageKey>, ImageError>)
    requires FileBegin(offset, e) + e.size < TWO_64
    requires archive.Base() + FileBegin(offset, e) + e.size < TWO_64
  {
    if e.size == 0 then Ok(None)
    else
      var sub := archive.Range(FileRange(offset, e));
      if sub.Err? then Err(TARFileError) else Ok(Some(sub.value))
  }

  /** The keys of all entries from `offset` on, or the first error. */
  function Keys(archive: StorageKey, entries: seq<Entry>, offset: nat): (r: Result<seq<Option<StorageKey>>, ImageError>)
    requires Fits(archive, entries, offset)
    ensures r.Ok? ==> |r.value| == |entries|
    decreases |entries|
  {
    if entries == [] then Ok([])
    else
      var e := entries[0];
      var key := EntryKey(archive, offset, e);
      if key.Err? then Err(key.error)
      else
        var rest := Keys(archive, entries[1..], PadToBlockMultiple(FileBegin(offset, e) + e.size));
        if rest.Err? then rest else Ok([key.value] + rest.value)
  }

  /**
   * The loop of `extract`: reads the entries in turn and computes the key
   * of each one's data, advancing the offset past its padded end.
   */
  method ExtractKeys(archive: StorageKey, entries: seq<Entry>) returns (r: Result<seq<Option<StorageKey>>, ImageError>)
    requires Fits(archive, entries, 0)
    ensures r == Keys(archive, entries, 0)
  {
    var offset: nat := 0;
    var keys: seq<Option<StorageKey>> := [];
    var rest := entries;
    ghost var all := Keys(archive, entries, 0);
    assert all.Ok? ==> [] + all.value == all.value;
    while rest != []
      invariant Fits(archive, rest, offset)
      invariant all == Glue(keys, Keys(archive, rest, offset))
      decreases |rest|
    {
      var e := rest[0];
      ExtractStep(archive, rest, offset, keys, all);
      var file_key := EntryKey(archive, offset, e);
      if file_key.Err? {
        return Err(file_key.error);
      }
      keys := keys + [file_key.value];
      offset := PadToBlockMultiple(FileBegin(offset, e) + e.size);
      rest := rest[1..];
    }
    assert keys + [] == keys;
    return Ok(keys);
  }

  /** The loop invariant survives one entry, and an error in its key is the error of the whole. */
  lemma ExtractStep(archive: StorageKey, rest: seq<Entry>, offset: nat,
                    keys: seq<Option<StorageKey>>, all: Result<seq<Option<StorageKey>>, ImageError>)
    requires rest != [] && Fits(archive, rest, offset)
    requires all == Glue(keys, Keys(archive, rest, offset))
    ensures var e := rest[0]; var end := FileBegin(offset, e) + e.size;
      && end + BLOCK_LEN <= TWO_64 && archive.Base() + end < TWO_64
      && var key := EntryKey(archive, offset, e);
      && (key.Err? ==> all == Err(key.error))
      && (key.Ok? ==> Fits(archive, rest[1..], PadToBlockMultiple(end))
                      && all == Glue(keys + [key.value], Keys(archive, rest[1..], PadToBlockMultiple(end))))
  {
    var e := rest[0];
    var key := EntryKey(archive, offset, e);
    if key.Ok? {
      GlueStep(keys, key.value, Keys(archive, rest[1..], PadToBlockMultiple(FileBegin(offset, e) + e.size)));
    }
  }

  /** The keys found so far in front of the keys still to come. */
  function Glue(done: seq<Option<StorageKey>>, rest: Result<seq<Option<StorageKey>>, ImageError>)
    : Result<seq<Option<StorageKey>>, ImageError>
  {
    if rest.Err? then rest else Ok(done + rest.value)
  }

  lemma GlueStep(done: seq<Option<StorageKey>>, k: Option<StorageKey>, rest: Result<seq<Option<StorageKey>>, ImageError>)
    ensures Glue(done + [k], rest) == Glue(done, Glue([k], rest))
  {
    if rest.Ok? {
      assert done + [k] + rest.value == done + ([k] + rest.value);
    }
  }

  /**
   * Entry by entry: an empty entry has no key, and any other has the part
   * of the archive from its data start for its size.
   */
  lemma {:induction false} KeysAt(archive: StorageKey, entries: seq<Entry>, offset: nat, i: nat)
    requires Fits(archive, entries, offset) && Keys(archive, entries, offset).Ok? && i < |entries|
    ensures var key := Keys(archive, entries, offset).value[i];
      var begin := FileBegin(Offsets(archive, entries, offset)[i], entries[i]);
      && (key.None? <==> entries[i].size == 0)
      && (key.Some? ==> (archive.Blob? || archive.BlobPart?) && key.value.BlobPart?)
      && (key.Some? ==> key.value.digest == archive.digest)
      && (key.Some? ==> key.value.range.start == archive.Base() + begin)
      && (key.Some? ==> key.value.range.end == archive.Base() + begin + entries[i].size)
    decreases i
  {
    if i > 0 {
      var next := PadToBlockMultiple(FileBegin(offset, entries[0]) + entries[0].size);
      var ks := Keys(archive, entries, offset).value;
      var later := Keys(archive, entries[1..], next);
      assert later.Ok? && ks == [ks[0]] + later.value;
      assert Offsets(archive, entries, offset) == [offset] + Offsets(archive, entries[1..], next);
      KeysAt(archive, entries[1..], next, i - 1);
      assert entries[1..][i - 1] == entries[i];
    }
  }

  /** Keys are refused exactly when some entry holds data and the archive has no ranges. */
  lemma {:induction false} KeysErr(archive: StorageKey, entries: seq<Entry>, offset: nat)
    requires Fits(archive, entries, offset)
    ensures Keys(archive, entries, offset).Err? <==>
      !(archive.Blob? || archive.BlobPart?) && exists i :: 0 <= i < |entries| && entries[i].size > 0
    ensures Keys(archive, entries, offset).Err? ==> Keys(archive, entries, offset).error == TARFileError
    decreases |entries|
  {
    if entries != [] {
      var next := PadToBlockMultiple(FileBegin(offset, entries[0]) + entries[0].size);
      KeysErr(archive, entries[1..], next);
      if exists i :: 0 <= i < |entries| && entries[i].size > 0 {
        var i :| 0 <= i < |entries| && entries[i].size > 0;
        if i > 0 { assert entries[1..][i - 1] == entries[i]; }
      }
      if exists i :: 0 <= i < |entries[1..]| && entries[1..][i].size > 0 {
        var i :| 0 <= i < |entries[1..]| && entries[1..][i].size > 0;
        assert entries[i + 1].size > 0;
      }
    }
  }

  /** Every header after the first is read at a block boundary. */
  lemma OffsetsAligned(archive: StorageKey, entries: seq<Entry>, offset: nat, i: nat)
    requires Fits(archive, entries, offset) && 0 < i < |entries|
    ensures Offsets(archive, entries, offset)[i] % BLOCK_LEN == 0
  {
    var offs := Offsets(archive, entries, offset);
    OffsetStep(archive, entries, offset, i - 1);
    PadBounds(FileBegin(offs[i - 1], entries[i - 1]) + entries[i - 1].size);
  }

  /** The header after an entry is read at the padded end of that entry's data. */
  lemma {:induction false} OffsetStep(archive: StorageKey, entries: seq<Entry>, offset: nat, i: nat)
    requires Fits(archive, entries, offset) && i + 1 < |entries|
    ensures var offs := Offsets(archive, entries, offset);
      var end := FileBegin(offs[i], entries[i]) + entries[i].size;
      end + BLOCK_LEN <= TWO_64 && offs[i + 1] == PadToBlockMultiple(end)
    decreases i
  {
    var next := PadToBlockMultiple(FileBegin(offset, entries[0]) + entries[0].size);
    if i > 0 {
      OffsetStep(archive, entries[1..], next, i - 1);
      assert entries[1..][i - 1] == entries[i] && entries[1..][i] == entries[i + 1];
    }
  }

  /** The entry kinds of the tar reader; every kind the extractor does not handle is `Other`. */
  datatype EntryType = Fifo | Regular | Directory | Symlink | Link | Char | Block | Other

  /** What one entry's header gives: kind, path, link target, device numbers, and the metadata as the filesystem keeps it. */
  datatype Header = Header(
    kind: EntryType,
    path: seq<VfsNodes.Name>,
    link_name: Option<seq<VfsNodes.Name>>,
    device_major: Option<u32>,
    device_minor: Option<u32>,
    stat: VfsNodes.Stat)

  /** A filesystem error, as the image error that wraps it. */
  function Lift(o: VfsWrite.Outcome<()>): (VfsNodes.FsState, Result<(), ImageError>) {
    (o.fs, if o.result.Err? then Err(ImageVFSError(o.result.error)) else Ok(()))
  }

  /**
   * `extract_file_metadata`: the filesystem after one entry and the result.
   * Each handled kind becomes the matching write at the entry's path in the
   * directory `workdir`; a link without a target or a device without both
   * numbers is a tar format error; any other kind is skipped.
   */
  function Metadata(s: VfsNodes.FsState, workdir: VfsNodes.INodeNum, h: Header, data: Option<StorageKey>)
    : (r: (VfsNodes.FsState, Result<(), ImageError>))
    ensures r.1.Err? && r.1.error == TARFileError ==> r.0 == s
    ensures r.1 != Err(TARFileError) ==> r.1.Ok? || r.1.error.ImageVFSError?
  {
    match h.kind
    case Fifo => Lift(VfsWrite.WriteNodeFile(s, workdir, h.path, h.stat, VfsNodes.Fifo))
    case Regular =>
      Lift(VfsWrite.WriteNodeFile(s, workdir, h.path, h.stat,
        if data.Some? then VfsNodes.FileStorage(data.value) else VfsNodes.EmptyFile))
    case Directory => Lift(VfsWrite.WriteDirectoryMetadata(s, workdir, h.path, h.stat))
    case Symlink =>
      if h.link_name.None? then (s, Err(TARFileError))
      else Lift(VfsWrite.WriteNodeFile(s, workdir, h.path, h.stat, VfsNodes.SymbolicLink(h.link_name.value)))
    case Link =>
      if h.link_name.None? then (s, Err(TARFileError))
      else Lift(VfsWrite.WriteHardlink(s, workdir, h.path, h.link_name.value))
    case Char =>
      if h.device_major.None? || h.device_minor.None? then (s, Err(TARFileError))
      else Lift(VfsWrite.WriteNodeFile(s, workdir, h.path, h.stat, VfsNodes.Char(h.device_major.value, h.device_minor.value)))
    case Block =>
      if h.device_major.None? || h.device_minor.None? then (s, Err(TARFileError))
      else Lift(VfsWrite.WriteNodeFile(s, workdir, h.path, h.stat, VfsNodes.Block(h.device_major.value, h.device_minor.value)))
    case Other => (s, Ok(()))
  }

  /** The same dispatch on the filesystem object, through a fresh writer at the root. */
  method ExtractFileMetadata(fs: VfsFilesystem.Filesystem, h: Header, data: Option<StorageKey>) returns (r: Result<(), ImageError>)
    modifies fs
    ensures (fs.State(), r) == Metadata(old(fs.State()), old(fs.root), h, data)
    ensures old(fs.Valid()) ==> fs.Valid()
  {
    var fsw := fs.Writer();
    var written: Result<(), VFSError> := Ok(());
    match h.kind {
      case Fifo =>
        written := fsw.WriteFifo(h.path, h.stat);
      case Regular =>
        written := fsw.WriteStorageFile(h.path, h.stat, data);
      case Directory =>
        written := fsw.WriteDirectoryMetadata(h.path, h.stat);
      case Symlink =>
        if h.link_name.None? {
          return Err(TARFileError);
        }
        written := fsw.WriteSymlink(h.path, h.stat, h.link_name.value);
      case Link =>
        if h.link_name.None? {
          return Err(TARFileError);
        }
        written := fsw.WriteHardlink(h.path, h.link_name.value);
      case Char =>
        if h.device_major.None? || h.device_minor.None? {
          return Err(TARFileError);
        }
        written := fsw.WriteCharDevice(h.path, h.stat, h.device_major.value, h.device_minor.value);
      case Block =>
        if h.device_major.None? || h.device_minor.None? {
          return Err(TARFileError);
        }
        written := fsw.WriteBlockDevice(h.path, h.stat, h.device_major.value, h.device_minor.value);
      case Other =>
    }
    if written.Err? {
      return Err(ImageVFSError(written.error));
    }
    return Ok(());
  }

  /**
   * A regular entry that is written becomes a new node under its name: the
   * stored part of the archive when it has data, an empty file otherwise.
   */
  lemma RegularEntryStored(s: VfsNodes.FsState, workdir: VfsNodes.INodeNum, h: Header, data: Option<StorageKey>)
    requires h.kind == Regular && Metadata(s, workdir, h, data).1.Ok?
    ensures var t := Metadata(s, workdir, h, data).0; var num := |t.inodes| - 1;
      && VfsNodes.FileName(h.path).Some? && |s.inodes| <= num && t.inodes[num].Some?
      && t.inodes[num].value.data == (if data.Some? then VfsNodes.FileStorage(data.value) else VfsNodes.EmptyFile)
      && exists dir: VfsNodes.INodeNum :: VfsNodes.IsDirectory(t, dir)
           && VfsNodes.FileName(h.path).value in VfsNodes.Entries(t, dir)
           && VfsNodes.Entries(t, dir)[VfsNodes.FileName(h.path).value] == num
  {
    var node := if data.Some? then VfsNodes.FileStorage(data.value) else VfsNodes.EmptyFile;
    VfsWrite.WriteNodeFileEntry(s, workdir, h.path, h.stat, node);
  }

  /** What is refused or skipped: no link target, missing device numbers, or a kind that is not handled. */
  lemma MetadataRefusals(s: VfsNodes.FsState, workdir: VfsNodes.INodeNum, h: Header, data: Option<StorageKey>)
    ensures (h.kind == Symlink || h.kind == Link) && h.link_name.None? ==>
      Metadata(s, workdir, h, data) == (s, Err(TARFileError))
    ensures (h.kind == Char || h.kind == Block) && (h.device_major.None? || h.device_minor.None?) ==>
      Metadata(s, workdir, h, data) == (s, Err(TARFileError))
    ensures h.kind == Other ==> Metadata(s, workdir, h, data) == (s, Ok(()))
    ensures Metadata(s, workdir, h, data).1 == Err(TARFileError) <==>
      ((h.kind == Symlink || h.kind == Link) && h.link_name.None?)
      || ((h.kind == Char || h.kind == Block) && (h.device_major.None? || h.device_minor.None?))
  {
  }
}
