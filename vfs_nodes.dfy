/**
 * The in-memory filesystem a container sees: a vector of inode slots, each
 * empty or holding a node with its metadata, and the root's number.
 */
module VfsNodes {
  import opened Wrappers
  import opened Ints
  import StorageKeys
  import opened ImageErrors

  /** One path component, as `Path::iter` yields it. */
  type Name = seq<u8>

  /** An index into the inode vector. */
  type INodeNum = nat

  const ROOT_NAME: Name := [0x2f]
  const DOT: Name := [0x2e]
  const DOTDOT: Name := [0x2e, 0x2e]

  datatype Stat = Stat(mode: u32, uid: u64, gid: u64, mtime: u64, nlink: u64, size: u64)

  function DefaultStat(): Stat { Stat(0, 0, 0, 0, 0, 0) }

  /** What an inode holds. A factory is known here only by an identity of its own. */
  datatype Node =
    | NormalDirectory(entries: map<Name, INodeNum>)
    | FileStorage(key: StorageKeys.StorageKey)
    | FileFactory(file_factory: nat)
    | UnixStreamFactory(stream_factory: nat)
    | EmptyFile
    | SymbolicLink(target: seq<Name>)
    | Char(char_major: u32, char_minor: u32)
    | Block(block_major: u32, block_minor: u32)
    | Fifo

  datatype INode = INode(stat: Stat, data: Node)

  /** A resolved name: the directory it was found in and the inode it names. */
  datatype DirEntryRef = DirEntryRef(parent: INodeNum, child: INodeNum)

  /** An open file: just its inode number. */
  datatype VFile = VFile(inode: INodeNum)

  /** The inode vector and the root's number, as values. */
  datatype FsState = FsState(inodes: seq<Option<INode>>, root: INodeNum)

  /** `get_inode`: the node in an allocated slot; a number past the end or an empty slot is unallocated. */
  function GetINode(s: FsState, num: INodeNum): (r: Result<INode, VFSError>)
    ensures r.Ok? <==> num < |s.inodes| && s.inodes[num].Some?
    ensures r.Ok? ==> r.value == s.inodes[num].value
    ensures r.Err? ==> r.error == UnallocNode
  {
    if num < |s.inodes| && s.inodes[num].Some? then Ok(s.inodes[num].value) else Err(UnallocNode)
  }

  predicate IsDirectory(s: FsState, num: INodeNum) {
    GetINode(s, num).Ok? && GetINode(s, num).value.data.NormalDirectory?
  }

  /** The entries of a directory. */
  function Entries(s: FsState, num: INodeNum): map<Name, INodeNum>
    requires IsDirectory(s, num)
  {
    s.inodes[num].value.data.entries
  }

  /** The link count of an allocated inode. */
  function NLink(s: FsState, num: INodeNum): u64
    requires GetINode(s, num).Ok?
  {
    s.inodes[num].value.stat.nlink
  }

  /** A fresh directory: mode 0755, one link, and a `.` entry naming itself. */
  function DirectoryINode(num: INodeNum): (n: INode)
    ensures n.data.NormalDirectory? && n.data.entries == map[DOT := num]
    ensures n.stat.nlink == 1 && n.stat.mode == 0x1ed
  {
    INode(DefaultStat().(mode := 0x1ed, nlink := 1), NormalDirectory(map[DOT := num]))
  }

  /** The limits on one resolution: path segments and symbolic links still allowed. */
  datatype Budget = Budget(path_segment: nat, symbolic_link: nat)

  /** `Limits::reset`: 1000 path segments and 50 symbolic links. */
  function Reset(): (b: Budget)
    ensures b.path_segment == 1000 && b.symbolic_link == 50
  {
    Budget(1000, 50)
  }

  /** `Path::parent`: everything but the last component, unless the path is empty or ends at the root. */
  function Parent(path: seq<Name>): (p: Option<seq<Name>>)
    ensures p.None? <==> path == [] || path[|path| - 1] == ROOT_NAME
    ensures p.Some? ==> p.value == path[..|path| - 1]
  {
    if path == [] || path[|path| - 1] == ROOT_NAME then None else Some(path[..|path| - 1])
  }

  /** `Path::file_name`: the last component, when it is a normal name. */
  function FileName(path: seq<Name>): (n: Option<Name>)
    ensures n.Some? <==> path != [] && path[|path| - 1] !in {ROOT_NAME, DOT, DOTDOT}
    ensures n.Some? ==> n.value == path[|path| - 1]
  {
    if path == [] || path[|path| - 1] in {ROOT_NAME, DOT, DOTDOT} then None else Some(path[|path| - 1])
  }
}
