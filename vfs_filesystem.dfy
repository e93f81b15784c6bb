/**
 * The filesystem object and the limit counters one resolution carries:
 * the resolution loops, each proved to compute the resolution functions.
 */
module VfsFilesystem {
  import opened Wrappers
  import opened Ints
  import StorageKeys
  import opened ImageErrors
  import opened VfsNodes
  import opened VfsResolve
  import opened VfsWrite

  /** The counters of one resolution, decremented in place. */
  class Limits {
    var path_segment: nat
    var symbolic_link: nat

    function Counts(): Budget
      reads this
    {
      Budget(path_segment, symbolic_link)
    }

    /** `reset`: the full allowance. */
    constructor Reset()
      ensures Counts() == VfsNodes.Reset()
    {
      path_segment := 1000;
      symbolic_link := 50;
    }

    method TakePathSegment() returns (r: Result<(), VFSError>)
      modifies this
      ensures r.Ok? <==> old(path_segment) > 0
      ensures r.Ok? ==> r == Ok(())
      ensures r.Err? ==> r.error == PathSegmentLimitExceeded
      ensures r.Ok? ==> Counts() == VfsResolve.TakePathSegment(old(Counts())).value
      ensures r.Err? ==> Counts() == old(Counts())
    {
      if path_segment > 0 {
        path_segment := path_segment - 1;
        return Ok(());
      } else {
        return Err(PathSegmentLimitExceeded);
      }
    }

    method TakeSymbolicLink() returns (r: Result<(), VFSError>)
      modifies this
      ensures r.Ok? <==> old(symbolic_link) > 0
      ensures r.Ok? ==> r == Ok(())
      ensures r.Err? ==> r.error == SymbolicLinkLimitExceeded
      ensures r.Ok? ==> Counts() == VfsResolve.TakeSymbolicLink(old(Counts())).value
      ensures r.Err? ==> Counts() == old(Counts())
    {
      if symbolic_link > 0 {
        symbolic_link := symbolic_link - 1;
        return Ok(());
      } else {
        return Err(SymbolicLinkLimitExceeded);
      }
    }
  }

  class Filesystem {
    var inodes: seq<Option<INode>>
    var root: INodeNum

    function State(): FsState
      reads this
    {
      FsState(inodes, root)
    }

    /** The root slot holds a directory. */
    predicate Valid()
      reads this
    {
      IsDirectory(State(), root)
    }

    /** `new`: one empty slot at 0 for the root, which the writer fills with a fresh directory. */
    constructor()
      ensures root == 0 && inodes == [Some(DirectoryINode(0))]
      ensures Valid() && Entries(State(), 0) == map[DOT := 0]
    {
      root := 0;
      inodes := [None];
      new;
      var w := new VFSWriter(this);
      w.PutDirectory(root);
    }

    /** `writer`: a writer whose working directory is the root. */
    method Writer() returns (w: VFSWriter)
      ensures fresh(w) && w.fs == this && w.workdir == root
    {
      w := new VFSWriter(this);
    }

    method ResolvePathSegment(limits: Limits, parent: INodeNum, part: Name) returns (r: Result<DirEntryRef, VFSError>)
      modifies limits
      ensures Resolved(r, limits.Counts()) == Segment(State(), old(limits.Counts()), parent, part)
    {
      var taken := limits.TakePathSegment();
      if taken.Err? {
        return Err(taken.error);
      }
      if part == ROOT_NAME {
        return Ok(DirEntryRef(root, root));
      }
      var node := GetINode(State(), parent);
      if node.Err? {
        return Err(node.error);
      }
      match node.value.data {
        case NormalDirectory(entries) =>
          if part !in entries {
            return Err(NotFound);
          }
          return Ok(DirEntryRef(parent, entries[part]));
        case _ =>
          return Err(DirectoryExpected);
      }
    }

    /** `resolve_symlinks`: the loop that follows links, one link paid per hop. */
    method ResolveSymlinks(limits: Limits, entry: DirEntryRef) returns (r: Result<DirEntryRef, VFSError>)
      modifies limits
      ensures Resolved(r, limits.Counts()) == Symlinks(State(), old(limits.Counts()), entry)
      decreases limits.symbolic_link, limits.path_segment, 0
    {
      var e := entry;
      while true
        invariant Symlinks(State(), old(limits.Counts()), entry) == Symlinks(State(), limits.Counts(), e)
        invariant limits.symbolic_link <= old(limits.symbolic_link) && limits.path_segment <= old(limits.path_segment)
        decreases limits.symbolic_link
      {
        var node := GetINode(State(), e.child);
        if node.Err? {
          return Err(node.error);
        }
        if !node.value.data.SymbolicLink? {
          return Ok(e);
        }
        var taken := limits.TakeSymbolicLink();
        if taken.Err? {
          return Err(taken.error);
        }
        var hop := ResolvePath(limits, e.parent, node.value.data.target);
        if hop.Err? {
          return hop;
        }
        e := hop.value;
      }
    }

    /** `resolve_path`: the first component directly, then links and a lookup for each further one. */
    method ResolvePath(limits: Limits, parent: INodeNum, path: seq<Name>) returns (r: Result<DirEntryRef, VFSError>)
      modifies limits
      ensures Resolved(r, limits.Counts()) == Path(State(), old(limits.Counts()), parent, path)
      decreases limits.symbolic_link, limits.path_segment, 2
    {
      if path == [] {
        return Ok(DirEntryRef(parent, parent));
      }
      var first := ResolvePathSegment(limits, parent, path[0]);
      if first.Err? {
        return first;
      }
      var entry := first.value;
      var i := 1;
      while i < |path|
        invariant 1 <= i <= |path|
        invariant Path(State(), old(limits.Counts()), parent, path) == Rest(State(), limits.Counts(), entry, path[i..])
        invariant limits.symbolic_link <= old(limits.symbolic_link) && limits.path_segment < old(limits.path_segment)
        decreases |path| - i
      {
        assert path[i..][1..] == path[i + 1..];
        var followed := ResolveSymlinks(limits, entry);
        if followed.Err? {
          return followed;
        }
        var next := ResolvePathSegment(limits, followed.value.child, path[i]);
        if next.Err? {
          return next;
        }
        entry := next.value;
        i := i + 1;
      }
      return Ok(entry);
    }

    /** `open_at`, which does not use `at_dir`; `open` is the same with none. */
    method OpenAt(at_dir: Option<VFile>, path: seq<Name>) returns (r: Result<VFile, VFSError>)
      ensures r == Open(State(), path)
    {
      var limits := new Limits.Reset();
      var entry := ResolvePath(limits, root, path);
      if entry.Err? {
        return Err(entry.error);
      }
      var followed := ResolveSymlinks(limits, entry.value);
      if followed.Err? {
        return Err(followed.error);
      }
      return Ok(VFile(followed.value.child));
    }

    /** `open_root`: opening `/`, which cannot fail while the root is a directory. */
    method OpenRoot() returns (f: VFile)
      requires Valid()
      ensures f == VFile(root)
    {
      VfsResolve.OpenRoot(State());
      var r := OpenAt(None, [ROOT_NAME]);
      f := r.value;
    }

    /** `vfile_stat`: the metadata of an open file; indexing past the vector panics. */
    function VFileStat(f: VFile): (r: Result<Stat, VFSError>)
      requires f.inode < |inodes|
      reads this
      ensures r.Ok? <==> inodes[f.inode].Some?
      ensures r.Ok? ==> r.value == inodes[f.inode].value.stat
      ensures r.Err? ==> r.error == NotFound
    {
      if inodes[f.inode].None? then Err(NotFound) else Ok(inodes[f.inode].value.stat)
    }

    /** `is_directory`: an allocated slot holding a directory. */
    function IsDirectoryFile(f: VFile): (b: bool)
      requires f.inode < |inodes|
      reads this
      ensures b <==> IsDirectory(State(), f.inode)
    {
      inodes[f.inode].Some? && inodes[f.inode].value.data.NormalDirectory?
    }

    /**
     * What `vfile_storage` opens for a file: `/dev/null` for an empty file,
     * the stored part, or what a factory makes; anything else is no file.
     */
    function VFileSource(f: VFile): (r: Result<Node, VFSError>)
      requires f.inode < |inodes|
      reads this
      ensures r.Ok? ==> inodes[f.inode].Some? && r.value == inodes[f.inode].value.data
      ensures r.Ok? ==> r.value.EmptyFile? || r.value.FileStorage? || r.value.FileFactory? || r.value.UnixStreamFactory?
      ensures r.Err? ==> r.error == (if inodes[f.inode].None? then NotFound else FileExpected)
    {
      match inodes[f.inode]
      case None => Err(NotFound)
      case Some(node) =>
        match node.data
        case EmptyFile => Ok(node.data)
        case FileStorage(_) => Ok(node.data)
        case FileFactory(_) => Ok(node.data)
        case UnixStreamFactory(_) => Ok(node.data)
        case _ => Err(FileExpected)
    }
  }

  /**
   * The writer: every operation changes the filesystem in place and is
   * proved to leave it as the matching function of the old state says,
   * including whatever an error leaves half done.
   */
  class VFSWriter {
    const fs: Filesystem
    const workdir: INodeNum

    constructor(fs: Filesystem)
      ensures this.fs == fs && workdir == fs.root
    {
      this.fs := fs;
      workdir := fs.root;
    }

    /** `alloc_inode_number`: a new empty slot at the end. */
    method AllocInodeNumber() returns (num: INodeNum)
      modifies fs
      ensures num == |old(fs.inodes)| && fs.inodes == old(fs.inodes) + [None] && fs.root == old(fs.root)
    {
      num := |fs.inodes|;
      fs.inodes := fs.inodes + [None];
    }

    /** `put_inode`: filling a slot, which must be empty (the assertion panics otherwise). */
    method PutInode(num: INodeNum, inode: INode)
      requires num < |fs.inodes| && fs.inodes[num].None?
      modifies fs
      ensures fs.inodes == old(fs.inodes)[num := Some(inode)] && fs.root == old(fs.root)
    {
      fs.inodes := fs.inodes[num := Some(inode)];
    }

    /** `put_directory`: a fresh directory, mode 0755 with one link and a `.` entry, in an empty slot. */
    method PutDirectory(num: INodeNum)
      requires num < |fs.inodes| && fs.inodes[num].None?
      modifies fs
      ensures fs.inodes == old(fs.inodes)[num := Some(DirectoryINode(num))] && fs.root == old(fs.root)
    {
      PutInode(num, DirectoryINode(num));
    }

    method InodeIncref(num: INodeNum) returns (r: Result<(), VFSError>)
      modifies fs
      ensures Outcome(fs.State(), r) == Incref(old(fs.State()), num)
    {
      var node := GetINode(fs.State(), num);
      if node.Err? {
        return Err(node.error);
      }
      if node.value.stat.nlink + 1 >= TWO_64 {
        return Err(INodeRefCountError);
      }
      fs.inodes := fs.inodes[num := Some(WithNLink(node.value, node.value.stat.nlink + 1))];
      return Ok(());
    }

    method InodeDecref(num: INodeNum) returns (r: Result<(), VFSError>)
      modifies fs
      ensures Outcome(fs.State(), r) == Decref(old(fs.State()), num)
    {
      var node := GetINode(fs.State(), num);
      if node.Err? {
        return Err(node.error);
      }
      if node.value.stat.nlink == 0 {
        return Err(INodeRefCountError);
      }
      fs.inodes := fs.inodes[num := Some(WithNLink(node.value, node.value.stat.nlink - 1))];
      return Ok(());
    }

    method AddChildToDirectory(parent: INodeNum, name: Name, child: INodeNum) returns (r: Result<(), VFSError>)
      modifies fs
      ensures Outcome(fs.State(), r) == AddChild(old(fs.State()), parent, name, child)
    {
      var inc := InodeIncref(child);
      if inc.Err? {
        return inc;
      }
      var node := GetINode(fs.State(), parent);
      if node.Err? {
        return Err(node.error);
      }
      if !node.value.data.NormalDirectory? {
        return Err(DirectoryExpected);
      }
      var entries := node.value.data.entries;
      var previous := if name in entries then Some(entries[name]) else None;
      fs.inodes := fs.inodes[parent := Some(node.value.(data := NormalDirectory(entries[name := child])))];
      if previous.None? {
        return Ok(());
      }
      r := InodeDecref(previous.value);
    }

    method AllocChildDirectory(parent: INodeNum, name: Name) returns (r: Result<INodeNum, VFSError>)
      modifies fs
      ensures Outcome(fs.State(), r) == AllocChild(old(fs.State()), parent, name)
    {
      var num := AllocInodeNumber();
      PutDirectory(num);
      assert fs.State() == Append(old(fs.State()), DirectoryINode(num));
      var added := AddChildToDirectory(parent, name, num);
      if added.Err? {
        return Err(added.error);
      }
      var back := AddChildToDirectory(num, DOTDOT, parent);
      if back.Err? {
        return Err(back.error);
      }
      return Ok(num);
    }

    method ResolveOrCreatePathSegment(limits: Limits, parent: INodeNum, part: Name) returns (r: Result<DirEntryRef, VFSError>)
      modifies fs, limits
      ensures Step(fs.State(), limits.Counts(), r) == CreateSegment(old(fs.State()), old(limits.Counts()), parent, part)
    {
      var result := fs.ResolvePathSegment(limits, parent, part);
      if result == Err(NotFound) {
        var child := AllocChildDirectory(parent, part);
        if child.Err? {
          return Err(child.error);
        }
        return Ok(DirEntryRef(parent, child.value));
      }
      return result;
    }

    /** `resolve_or_create_path`: the resolution loop with every missing component created. */
    method ResolveOrCreatePath(limits: Limits, parent: INodeNum, path: seq<Name>) returns (r: Result<DirEntryRef, VFSError>)
      modifies fs, limits
      ensures Step(fs.State(), limits.Counts(), r) == CreatePath(old(fs.State()), old(limits.Counts()), parent, path)
    {
      if path == [] {
        return Ok(DirEntryRef(parent, parent));
      }
      var first := ResolveOrCreatePathSegment(limits, parent, path[0]);
      if first.Err? {
        return first;
      }
      var entry := first.value;
      var i := 1;
      while i < |path|
        invariant 1 <= i <= |path|
        invariant CreatePath(old(fs.State()), old(limits.Counts()), parent, path) == CreateRest(fs.State(), limits.Counts(), entry, path[i..])
        decreases |path| - i
      {
        assert path[i..][1..] == path[i + 1..];
        var followed := fs.ResolveSymlinks(limits, entry);
        if followed.Err? {
          return followed;
        }
        var next := ResolveOrCreatePathSegment(limits, followed.value.child, path[i]);
        if next.Err? {
          return next;
        }
        entry := next.value;
        i := i + 1;
      }
      return Ok(entry);
    }

    method ResolveOrCreateParent(limits: Limits, path: seq<Name>) returns (r: Result<(INodeNum, Name), VFSError>)
      modifies fs, limits
      ensures Step(fs.State(), limits.Counts(), r) == CreateParent(old(fs.State()), old(limits.Counts()), workdir, path)
    {
      var dir := workdir;
      var parent := Parent(path);
      if parent.Some? {
        var entry := ResolveOrCreatePath(limits, workdir, parent.value);
        if entry.Err? {
          return Err(entry.error);
        }
        var followed := fs.ResolveSymlinks(limits, entry.value);
        if followed.Err? {
          return Err(followed.error);
        }
        dir := followed.value.child;
      }
      var name := FileName(path);
      if name.None? {
        return Err(NotFound);
      }
      return Ok((dir, name.value));
    }

    method WriteDirectoryMetadata(path: seq<Name>, stat: Stat) returns (r: Result<(), VFSError>)
      modifies fs
      ensures Outcome(fs.State(), r) == VfsWrite.WriteDirectoryMetadata(old(fs.State()), workdir, path, stat)
      ensures old(fs.Valid()) ==> fs.Valid()
    {
      var limits := new Limits.Reset();
      var entry := ResolveOrCreatePath(limits, workdir, path);
      if entry.Err? {
        return Err(entry.error);
      }
      var followed := fs.ResolveSymlinks(limits, entry.value);
      if followed.Err? {
        return Err(followed.error);
      }
      var num := followed.value.child;
      var node := GetINode(fs.State(), num);
      if node.Err? {
        return Err(node.error);
      }
      if !node.value.data.NormalDirectory? {
        return Err(DirectoryExpected);
      }
      fs.inodes := fs.inodes[num := Some(node.value.(stat := stat))];
      return Ok(());
    }

    method WriteNodeFile(path: seq<Name>, stat: Stat, data: Node) returns (r: Result<(), VFSError>)
      modifies fs
      ensures Outcome(fs.State(), r) == VfsWrite.WriteNodeFile(old(fs.State()), workdir, path, stat, data)
      ensures old(fs.Valid()) ==> fs.Valid()
    {
      var limits := new Limits.Reset();
      var place := ResolveOrCreateParent(limits, path);
      if place.Err? {
        return Err(place.error);
      }
      ghost var placed := fs.State();
      var num := AllocInodeNumber();
      PutInode(num, INode(stat, data));
      assert fs.State() == Append(placed, INode(stat, data));
      r := AddChildToDirectory(place.value.0, place.value.1, num);
    }

    /** `write_storage_file`: a stored file, or an empty one when there is no key. */
    method WriteStorageFile(path: seq<Name>, stat: Stat, data: Option<StorageKeys.StorageKey>) returns (r: Result<(), VFSError>)
      modifies fs
      ensures Outcome(fs.State(), r) ==
        VfsWrite.WriteNodeFile(old(fs.State()), workdir, path, stat, if data.Some? then FileStorage(data.value) else EmptyFile)
      ensures old(fs.Valid()) ==> fs.Valid()
    {
      r := WriteNodeFile(path, stat, if data.Some? then FileStorage(data.value) else EmptyFile);
    }

    method WriteFileFactory(path: seq<Name>, stat: Stat, factory: nat) returns (r: Result<(), VFSError>)
      modifies fs
      ensures Outcome(fs.State(), r) == VfsWrite.WriteNodeFile(old(fs.State()), workdir, path, stat, FileFactory(factory))
      ensures old(fs.Valid()) ==> fs.Valid()
    {
      r := WriteNodeFile(path, stat, FileFactory(factory));
    }

    method WriteUnixStreamFactory(path: seq<Name>, stat: Stat, factory: nat) returns (r: Result<(), VFSError>)
      modifies fs
      ensures Outcome(fs.State(), r) == VfsWrite.WriteNodeFile(old(fs.State()), workdir, path, stat, UnixStreamFactory(factory))
      ensures old(fs.Valid()) ==> fs.Valid()
    {
      r := WriteNodeFile(path, stat, UnixStreamFactory(factory));
    }

    /** `write_symlink`: the link keeps its target path as written. */
    method WriteSymlink(path: seq<Name>, stat: Stat, link_to: seq<Name>) returns (r: Result<(), VFSError>)
      modifies fs
      ensures Outcome(fs.State(), r) == VfsWrite.WriteNodeFile(old(fs.State()), workdir, path, stat, SymbolicLink(link_to))
      ensures old(fs.Valid()) ==> fs.Valid()
    {
      r := WriteNodeFile(path, stat, SymbolicLink(link_to));
    }

    /** `write_hardlink`: the target and the new name's parent are resolved with one shared set of limits. */
    method WriteHardlink(path: seq<Name>, link_to: seq<Name>) returns (r: Result<(), VFSError>)
      modifies fs
      ensures Outcome(fs.State(), r) == VfsWrite.WriteHardlink(old(fs.State()), workdir, path, link_to)
      ensures old(fs.Valid()) ==> fs.Valid()
    {
      var limits := new Limits.Reset();
      var target := fs.ResolvePath(limits, workdir, link_to);
      if target.Err? {
        return Err(target.error);
      }
      var place := ResolveOrCreateParent(limits, path);
      if place.Err? {
        return Err(place.error);
      }
      r := AddChildToDirectory(place.value.0, place.value.1, target.value.child);
    }

    method WriteFifo(path: seq<Name>, stat: Stat) returns (r: Result<(), VFSError>)
      modifies fs
      ensures Outcome(fs.State(), r) == VfsWrite.WriteNodeFile(old(fs.State()), workdir, path, stat, Fifo)
      ensures old(fs.Valid()) ==> fs.Valid()
    {
      r := WriteNodeFile(path, stat, Fifo);
    }

    method WriteCharDevice(path: seq<Name>, stat: Stat, major: u32, minor: u32) returns (r: Result<(), VFSError>)
      modifies fs
      ensures Outcome(fs.State(), r) == VfsWrite.WriteNodeFile(old(fs.State()), workdir, path, stat, Char(major, minor))
      ensures old(fs.Valid()) ==> fs.Valid()
    {
      r := WriteNodeFile(path, stat, Char(major, minor));
    }

    method WriteBlockDevice(path: seq<Name>, stat: Stat, major: u32, minor: u32) returns (r: Result<(), VFSError>)
      modifies fs
      ensures Outcome(fs.State(), r) == VfsWrite.WriteNodeFile(old(fs.State()), workdir, path, stat, Block(major, minor))
      ensures old(fs.Valid()) ==> fs.Valid()
    {
      r := WriteNodeFile(path, stat, Block(major, minor));
    }
  }
}
