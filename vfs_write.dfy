/**
 * What the filesystem writer does, as functions from the inode vector
 * before to the vector after and the outcome. An error leaves in place
 * whatever was already changed, as the writer does.
 */
module VfsWrite {
  import opened Wrappers
  import opened Ints
  import opened ImageErrors
  import opened VfsNodes
  import opened VfsResolve

  datatype Outcome<T> = Outcome(fs: FsState, result: Result<T, VFSError>)

  /** An outcome that also carries the limits left. */
  datatype Step<T> = Step(fs: FsState, limits: Budget, result: Result<T, VFSError>)

  /** No directory is lost: every slot holding a directory still holds one, the vector only grows, the root stays. */
  ghost predicate DirsKept(s: FsState, t: FsState) {
    && |s.inodes| <= |t.inodes| && t.root == s.root
    && forall n :: IsDirectory(s, n) ==> IsDirectory(t, n)
  }

  /** The node in slot `num` replaced. */
  function SetNode(s: FsState, num: INodeNum, n: INode): (t: FsState)
    requires num < |s.inodes|
    ensures t.root == s.root && |t.inodes| == |s.inodes| && t.inodes[num] == Some(n)
    ensures forall k :: 0 <= k < |s.inodes| && k != num ==> t.inodes[k] == s.inodes[k]
  {
    s.(inodes := s.inodes[num := Some(n)])
  }

  /** A new slot at the end holding `n`: `alloc_inode_number` followed by `put_inode`. */
  function Append(s: FsState, n: INode): (t: FsState)
    ensures t.root == s.root && t.inodes == s.inodes + [Some(n)]
    ensures DirsKept(s, t)
  {
    s.(inodes := s.inodes + [Some(n)])
  }

  /** The link count changed to `nlink`. */
  function WithNLink(n: INode, nlink: u64): INode {
    n.(stat := n.stat.(nlink := nlink))
  }

  /** `inode_incref`: one link more, unless the count is at the top of `u64`. */
  function Incref(s: FsState, num: INodeNum): (o: Outcome<()>)
    ensures o.result.Ok? <==> GetINode(s, num).Ok? && NLink(s, num) < TWO_64 - 1
    ensures o.result.Err? ==> o.fs == s
    ensures o.result.Err? ==> o.result.error == if GetINode(s, num).Err? then UnallocNode else INodeRefCountError
    ensures o.result.Ok? ==> o.fs == SetNode(s, num, WithNLink(s.inodes[num].value, NLink(s, num) + 1))
    ensures DirsKept(s, o.fs)
  {
    var node := GetINode(s, num);
    if node.Err? then Outcome(s, Err(node.error))
    else if node.value.stat.nlink + 1 >= TWO_64 then Outcome(s, Err(INodeRefCountError))
    else Outcome(SetNode(s, num, WithNLink(node.value, node.value.stat.nlink + 1)), Ok(()))
  }

  /** `inode_decref`: one link less, unless the count is already zero. */
  function Decref(s: FsState, num: INodeNum): (o: Outcome<()>)
    ensures o.result.Ok? <==> GetINode(s, num).Ok? && NLink(s, num) > 0
    ensures o.result.Err? ==> o.fs == s
    ensures o.result.Err? ==> o.result.error == if GetINode(s, num).Err? then UnallocNode else INodeRefCountError
    ensures o.result.Ok? ==> o.fs == SetNode(s, num, WithNLink(s.inodes[num].value, NLink(s, num) - 1))
    ensures DirsKept(s, o.fs)
  {
    var node := GetINode(s, num);
    if node.Err? then Outcome(s, Err(node.error))
    else if node.value.stat.nlink == 0 then Outcome(s, Err(INodeRefCountError))
    else Outcome(SetNode(s, num, WithNLink(node.value, node.value.stat.nlink - 1)), Ok(()))
  }

  /** The directory in slot `parent` with one entry set. */
  function SetEntry(s: FsState, parent: INodeNum, name: Name, child: INodeNum): (t: FsState)
    requires IsDirectory(s, parent)
    ensures IsDirectory(t, parent) && Entries(t, parent) == Entries(s, parent)[name := child]
    ensures t.inodes[parent].value.stat == s.inodes[parent].value.stat
    ensures DirsKept(s, t)
  {
    var node := s.inodes[parent].value;
    SetNode(s, parent, node.(data := NormalDirectory(node.data.entries[name := child])))
  }

  /**
   * `add_child_to_directory`: the child gains a link first; then the entry
   * is set, and a child it replaces loses a link. When the parent is no
   * directory, the child's extra link stays.
   */
  function AddChild(s: FsState, parent: INodeNum, name: Name, child: INodeNum): (o: Outcome<()>)
    ensures o.result.Ok? ==> IsDirectory(o.fs, parent) && name in Entries(o.fs, parent) && Entries(o.fs, parent)[name] == child
    ensures |o.fs.inodes| == |s.inodes| && o.fs.root == s.root
    ensures DirsKept(s, o.fs)
  {
    var inc := Incref(s, child);
    if inc.result.Err? then inc
    else
      var s1 := inc.fs;
      var node := GetINode(s1, parent);
      if node.Err? then Outcome(s1, Err(node.error))
      else if !node.value.data.NormalDirectory? then Outcome(s1, Err(DirectoryExpected))
      else
        var previous := if name in node.value.data.entries then Some(node.value.data.entries[name]) else None;
        var s2 := SetEntry(s1, parent, name, child);
        if previous.None? then Outcome(s2, Ok(()))
        else
          var dec := Decref(s2, previous.value);
          assert IsDirectory(dec.fs, parent) && Entries(dec.fs, parent) == Entries(s2, parent);
          dec
  }

  /**
   * `alloc_child_directory`: a fresh directory in a new slot, entered in
   * the parent under `name`, with a `..` entry back to the parent.
   */
  function AllocChild(s: FsState, parent: INodeNum, name: Name): (o: Outcome<INodeNum>)
    ensures |o.fs.inodes| == |s.inodes| + 1 && o.fs.root == s.root
    ensures o.result.Ok? ==> o.result.value == |s.inodes|
    ensures DirsKept(s, o.fs)
  {
    var num := |s.inodes|;
    var s1 := Append(s, DirectoryINode(num));
    var added := AddChild(s1, parent, name, num);
    if added.result.Err? then Outcome(added.fs, Err(added.result.error))
    else
      var back := AddChild(added.fs, num, DOTDOT, parent);
      if back.result.Err? then Outcome(back.fs, Err(back.result.error)) else Outcome(back.fs, Ok(num))
  }

  /** `resolve_or_create_path_segment`: a name that is not found becomes a new directory; other errors stand. */
  function CreateSegment(s: FsState, lim: Budget, parent: INodeNum, part: Name): (st: Step<DirEntryRef>)
    ensures |st.fs.inodes| >= |s.inodes| && st.fs.root == s.root
    ensures DirsKept(s, st.fs)
  {
    var r := Segment(s, lim, parent, part);
    if r.result == Err(NotFound) then
      var made := AllocChild(s, parent, part);
      if made.result.Err? then Step(made.fs, r.limits, Err(made.result.error))
      else Step(made.fs, r.limits, Ok(DirEntryRef(parent, made.result.value)))
    else Step(s, r.limits, r.result)
  }

  /** `resolve_or_create_path`: `resolve_path` with every missing component created as a directory. */
  function CreatePath(s: FsState, lim: Budget, parent: INodeNum, path: seq<Name>): (st: Step<DirEntryRef>)
    ensures |st.fs.inodes| >= |s.inodes| && st.fs.root == s.root
    ensures DirsKept(s, st.fs)
  {
    if path == [] then Step(s, lim, Ok(DirEntryRef(parent, parent)))
    else
      var first := CreateSegment(s, lim, parent, path[0]);
      if first.result.Err? then first else CreateRest(first.fs, first.limits, first.result.value, path[1..])
  }

  function CreateRest(s: FsState, lim: Budget, e: DirEntryRef, parts: seq<Name>): (st: Step<DirEntryRef>)
    ensures |st.fs.inodes| >= |s.inodes| && st.fs.root == s.root
    ensures DirsKept(s, st.fs)
    decreases |parts|
  {
    if parts == [] then Step(s, lim, Ok(e))
    else
      var followed := Symlinks(s, lim, e);
      if followed.result.Err? then Step(s, followed.limits, Err(followed.result.error))
      else
        var next := CreateSegment(s, followed.limits, followed.result.value.child, parts[0]);
        if next.result.Err? then next else CreateRest(next.fs, next.limits, next.result.value, parts[1..])
  }

  /**
   * `resolve_or_create_parent`: the directory a new entry goes in (the
   * parent path, created and with links followed, or the working
   * directory when there is no parent) and the entry's name.
   */
  function CreateParent(s: FsState, lim: Budget, workdir: INodeNum, path: seq<Name>): (st: Step<(INodeNum, Name)>)
    ensures st.result.Ok? ==> FileName(path).Some? && st.result.value.1 == FileName(path).value
    ensures st.result.Ok? && Parent(path).None? ==> st.result.value.0 == workdir
    ensures |st.fs.inodes| >= |s.inodes| && st.fs.root == s.root
    ensures DirsKept(s, st.fs)
  {
    var dir :=
      if Parent(path).None? then Step(s, lim, Ok(workdir))
      else
        var made := CreatePath(s, lim, workdir, Parent(path).value);
        if made.result.Err? then Step(made.fs, made.limits, Err(made.result.error))
        else
          var followed := Symlinks(made.fs, made.limits, made.result.value);
          if followed.result.Err? then Step(made.fs, followed.limits, Err(followed.result.error))
          else Step(made.fs, followed.limits, Ok(followed.result.value.child));
    if dir.result.Err? then Step(dir.fs, dir.limits, Err(dir.result.error))
    else if FileName(path).None? then Step(dir.fs, dir.limits, Err(NotFound))
    else Step(dir.fs, dir.limits, Ok((dir.result.value, FileName(path).value)))
  }

  /** `write_directory_metadata`: the path is created, its links followed, and a directory there gets the new metadata. */
  function WriteDirectoryMetadata(s: FsState, workdir: INodeNum, path: seq<Name>, stat: Stat): (o: Outcome<()>)
    ensures o.result.Ok? ==> exists num: INodeNum :: IsDirectory(o.fs, num) && o.fs.inodes[num].value.stat == stat
    ensures DirsKept(s, o.fs)
  {
    var made := CreatePath(s, Reset(), workdir, path);
    if made.result.Err? then Outcome(made.fs, Err(made.result.error))
    else
      var followed := Symlinks(made.fs, made.limits, made.result.value);
      if followed.result.Err? then Outcome(made.fs, Err(followed.result.error))
      else
        var num := followed.result.value.child;
        var node := GetINode(made.fs, num);
        if node.Err? then Outcome(made.fs, Err(node.error))
        else if !node.value.data.NormalDirectory? then Outcome(made.fs, Err(DirectoryExpected))
        else
          var t := SetNode(made.fs, num, node.value.(stat := stat));
          assert IsDirectory(t, num);
          Outcome(t, Ok(()))
  }

  /** `write_node_file`: a new slot holding the node, entered under its name in its parent directory. */
  function WriteNodeFile(s: FsState, workdir: INodeNum, path: seq<Name>, stat: Stat, data: Node): (o: Outcome<()>)
    ensures DirsKept(s, o.fs)
  {
    var place := CreateParent(s, Reset(), workdir, path);
    if place.result.Err? then Outcome(place.fs, Err(place.result.error))
    else
      var (dir, name) := place.result.value;
      var num := |place.fs.inodes|;
      AddChild(Append(place.fs, INode(stat, data)), dir, name, num)
  }

  /** `write_hardlink`: the target is resolved (without following a final link) and entered under the new name. */
  function WriteHardlink(s: FsState, workdir: INodeNum, path: seq<Name>, link_to: seq<Name>): (o: Outcome<()>)
    ensures DirsKept(s, o.fs)
  {
    var target := Path(s, Reset(), workdir, link_to);
    if target.result.Err? then Outcome(s, Err(target.result.error))
    else
      var place := CreateParent(s, target.limits, workdir, path);
      if place.result.Err? then Outcome(place.fs, Err(place.result.error))
      else
        var (dir, name) := place.result.value;
        AddChild(place.fs, dir, name, target.result.value.child)
  }

  /**
   * Adding an entry: the child gains a link, a different child the name
   * named before loses one, and the directory maps the name to the child.
   */
  lemma AddChildLinks(s: FsState, parent: INodeNum, name: Name, child: INodeNum)
    requires GetINode(s, child).Ok? && NLink(s, child) < TWO_64 - 1 && IsDirectory(s, parent)
    requires name in Entries(s, parent) ==>
      var p := Entries(s, parent)[name]; GetINode(s, p).Ok? && (p != child ==> NLink(s, p) > 0)
    ensures var o := AddChild(s, parent, name, child);
      && o.result.Ok?
      && IsDirectory(o.fs, parent) && Entries(o.fs, parent) == Entries(s, parent)[name := child]
      && (name !in Entries(s, parent) ==> NLink(o.fs, child) == NLink(s, child) + 1)
      && (name in Entries(s, parent) && Entries(s, parent)[name] == child ==> NLink(o.fs, child) == NLink(s, child))
      && (name in Entries(s, parent) && Entries(s, parent)[name] != child ==>
            NLink(o.fs, child) == NLink(s, child) + 1
            && NLink(o.fs, Entries(s, parent)[name]) == NLink(s, Entries(s, parent)[name]) - 1)
  {
    var s1 := Incref(s, child).fs;
    assert IsDirectory(s1, parent) && Entries(s1, parent) == Entries(s, parent);
    var s2 := SetEntry(s1, parent, name, child);
    assert NLink(s2, child) == NLink(s, child) + 1;
    if name in Entries(s, parent) {
      var p := Entries(s, parent)[name];
      assert GetINode(s2, p).Ok?;
      if p != child {
        assert NLink(s2, p) == NLink(s, p);
      }
    }
  }

  /**
   * When the parent is no directory the entry is refused, but the link the
   * child was given first is kept.
   */
  lemma AddChildNotDirectory(s: FsState, parent: INodeNum, name: Name, child: INodeNum)
    requires GetINode(s, child).Ok? && NLink(s, child) < TWO_64 - 1
    requires GetINode(s, parent).Ok? && !IsDirectory(s, parent) && parent != child
    ensures var o := AddChild(s, parent, name, child);
      o.result == Err(DirectoryExpected) && NLink(o.fs, child) == NLink(s, child) + 1
  {
  }

  /** The shape of a new child directory, whenever making it succeeded. */
  lemma AllocChildShape(s: FsState, parent: INodeNum, name: Name)
    requires IsDirectory(s, parent) && name !in Entries(s, parent)
    requires AllocChild(s, parent, name).result.Ok?
    ensures var o := AllocChild(s, parent, name); var num := |s.inodes|;
      && IsDirectory(o.fs, num) && Entries(o.fs, num) == map[DOT := num, DOTDOT := parent]
      && NLink(o.fs, num) == 2
      && IsDirectory(o.fs, parent) && Entries(o.fs, parent) == Entries(s, parent)[name := num]
      && NLink(o.fs, parent) == NLink(s, parent) + 1
      && (forall k :: 0 <= k < |s.inodes| && k != parent ==> o.fs.inodes[k] == s.inodes[k])
  {
    var num := |s.inodes|;
    var s1 := Append(s, DirectoryINode(num));
    assert IsDirectory(s1, parent) && Entries(s1, parent) == Entries(s, parent);
    var a := AddChild(s1, parent, name, num);
    var i1 := Incref(s1, num).fs;
    assert IsDirectory(i1, parent) && Entries(i1, parent) == Entries(s, parent);
    assert a.fs == SetEntry(i1, parent, name, num);
    assert IsDirectory(a.fs, num) && Entries(a.fs, num) == map[DOT := num] && NLink(a.fs, num) == 2;
    assert DOTDOT !in Entries(a.fs, num) by { assert DOTDOT != DOT; }
    var i2 := Incref(a.fs, parent).fs;
    assert IsDirectory(i2, num) && Entries(i2, num) == map[DOT := num];
    assert forall k :: 0 <= k < |s.inodes| && k != parent ==> a.fs.inodes[k] == s.inodes[k];
  }

  /** Every directory made since `s0` names itself `.` and an earlier directory `..`. */
  ghost predicate NewDirsLinked(s0: FsState, s: FsState) {
    forall n :: |s0.inodes| <= n < |s.inodes| ==>
      && IsDirectory(s, n) && DOT in Entries(s, n) && Entries(s, n)[DOT] == n
      && DOTDOT in Entries(s, n) && Entries(s, n)[DOTDOT] < n
  }

  /** One more directory keeps the earlier new ones linked. */
  lemma AllocChildLinked(s0: FsState, s: FsState, parent: INodeNum, name: Name)
    requires |s0.inodes| <= |s.inodes| && NewDirsLinked(s0, s)
    requires IsDirectory(s, parent) && name !in Entries(s, parent)
    requires AllocChild(s, parent, name).result.Ok?
    ensures NewDirsLinked(s0, AllocChild(s, parent, name).fs)
  {
    AllocChildShape(s, parent, name);
    var t := AllocChild(s, parent, name).fs;
    forall n | |s0.inodes| <= n < |t.inodes|
      ensures IsDirectory(t, n) && DOT in Entries(t, n) && Entries(t, n)[DOT] == n
      ensures DOTDOT in Entries(t, n) && Entries(t, n)[DOTDOT] < n
    {
      if n < |s.inodes| && n != parent {
        assert t.inodes[n] == s.inodes[n];
        assert IsDirectory(s, n) && Entries(t, n) == Entries(s, n);
      } else if n == parent {
        assert IsDirectory(s, n) && DOT in Entries(s, n) && DOTDOT in Entries(s, n);
        assert name != DOT && name != DOTDOT;
      }
    }
  }

  /** A created segment keeps the new directories linked. */
  lemma CreateSegmentLinked(s0: FsState, s: FsState, lim: Budget, parent: INodeNum, part: Name)
    requires |s0.inodes| <= |s.inodes| && NewDirsLinked(s0, s)
    requires CreateSegment(s, lim, parent, part).result.Ok?
    ensures NewDirsLinked(s0, CreateSegment(s, lim, parent, part).fs)
  {
    var r := Segment(s, lim, parent, part);
    if r.result == Err(NotFound) {
      AllocChildLinked(s0, s, parent, part);
    }
  }

  /** Resolving with creation keeps the new directories linked along the whole path. */
  lemma {:induction false} CreateRestLinked(s0: FsState, s: FsState, lim: Budget, e: DirEntryRef, parts: seq<Name>)
    requires |s0.inodes| <= |s.inodes| && NewDirsLinked(s0, s)
    requires CreateRest(s, lim, e, parts).result.Ok?
    ensures NewDirsLinked(s0, CreateRest(s, lim, e, parts).fs)
    decreases |parts|
  {
    if parts != [] {
      var followed := Symlinks(s, lim, e);
      var next := CreateSegment(s, followed.limits, followed.result.value.child, parts[0]);
      CreateSegmentLinked(s0, s, followed.limits, followed.result.value.child, parts[0]);
      CreateRestLinked(s0, next.fs, next.limits, next.result.value, parts[1..]);
    }
  }

  /**
   * `resolve_or_create_path`: when it succeeds, every directory it made
   * has its `.` entry and a `..` entry naming the directory it was made in.
   */
  lemma CreatePathLinked(s: FsState, lim: Budget, parent: INodeNum, path: seq<Name>)
    requires CreatePath(s, lim, parent, path).result.Ok?
    ensures NewDirsLinked(s, CreatePath(s, lim, parent, path).fs)
  {
    if path != [] {
      var first := CreateSegment(s, lim, parent, path[0]);
      CreateSegmentLinked(s, s, lim, parent, path[0]);
      CreateRestLinked(s, first.fs, first.limits, first.result.value, path[1..]);
    }
  }

  /** A segment that is found is not created: the inodes stay as they are. */
  lemma FoundNotCreated(s: FsState, lim: Budget, parent: INodeNum, part: Name)
    requires Segment(s, lim, parent, part).result.Ok?
    ensures CreateSegment(s, lim, parent, part) == Step(s, Segment(s, lim, parent, part).limits, Segment(s, lim, parent, part).result)
  {
  }

  /** A missing name in a directory becomes a new directory entered there. */
  lemma MissingCreated(s: FsState, lim: Budget, parent: INodeNum, part: Name)
    requires lim.path_segment > 0 && part != ROOT_NAME && IsDirectory(s, parent) && part !in Entries(s, parent)
    requires NLink(s, parent) < TWO_64 - 1
    ensures var st := CreateSegment(s, lim, parent, part);
      && st.result == Ok(DirEntryRef(parent, |s.inodes|))
      && IsDirectory(st.fs, parent) && Entries(st.fs, parent) == Entries(s, parent)[part := |s.inodes|]
      && Entries(st.fs, |s.inodes|) == map[DOT := |s.inodes|, DOTDOT := parent]
  {
    var num := |s.inodes|;
    var s1 := Append(s, DirectoryINode(num));
    var a := AddChild(s1, parent, part, num);
    assert a.result.Ok? by {
      assert IsDirectory(s1, parent) && Entries(s1, parent) == Entries(s, parent);
      AddChildLinks(s1, parent, part, num);
    }
    assert NLink(a.fs, parent) == NLink(s, parent) by {
      var i1 := Incref(s1, num).fs;
      assert a.fs == SetEntry(i1, parent, part, num);
    }
    assert AllocChild(s, parent, part).result.Ok? by {
      assert IsDirectory(a.fs, num) && Entries(a.fs, num) == map[DOT := num] by {
        var i1 := Incref(s1, num).fs;
        assert a.fs == SetEntry(i1, parent, part, num);
      }
      AddChildLinks(a.fs, num, DOTDOT, parent);
    }
    AllocChildShape(s, parent, part);
  }

  /**
   * A node file that is written is in a new slot at the end, holding the
   * node, and its name in the directory `resolve_or_create_parent` gives
   * names that slot.
   */
  lemma WriteNodeFileEntry(s: FsState, workdir: INodeNum, path: seq<Name>, stat: Stat, data: Node)
    requires !data.NormalDirectory?
    requires WriteNodeFile(s, workdir, path, stat, data).result.Ok?
    ensures var o := WriteNodeFile(s, workdir, path, stat, data); var num := |o.fs.inodes| - 1;
      && FileName(path).Some? && |s.inodes| <= num
      && o.fs.inodes[num].Some? && o.fs.inodes[num].value.data == data
      && var place := CreateParent(s, Reset(), workdir, path);
      && place.result.Ok? && |place.fs.inodes| == num
      && var dir := place.result.value.0;
      && IsDirectory(o.fs, dir) && FileName(path).value in Entries(o.fs, dir) && Entries(o.fs, dir)[FileName(path).value] == num
  {
    var place := CreateParent(s, Reset(), workdir, path);
    var (dir, name) := place.result.value;
    var num := |place.fs.inodes|;
    var s1 := Append(place.fs, INode(stat, data));
    var inc := Incref(s1, num);
    assert inc.fs.inodes[num].value.data == data;
    assert dir != num;
    var s2 := SetEntry(inc.fs, dir, name, num);
    assert s2.inodes[num].value.data == data;
    var o := AddChild(s1, dir, name, num);
    assert o.fs.inodes[num].value.data == data;
    assert IsDirectory(o.fs, dir) && name in Entries(o.fs, dir) && Entries(o.fs, dir)[name] == num;
  }

  /**
   * A hard link that is written is entered, in the directory
   * `resolve_or_create_parent` gives, under its name, naming the node the
   * target path resolves to.
   */
  lemma WriteHardlinkEntry(s: FsState, workdir: INodeNum, path: seq<Name>, link_to: seq<Name>)
    requires WriteHardlink(s, workdir, path, link_to).result.Ok?
    ensures var target := Path(s, Reset(), workdir, link_to);
      && target.result.Ok? && FileName(path).Some?
      && var place := CreateParent(s, target.limits, workdir, path);
      && place.result.Ok?
      && var dir := place.result.value.0;
      && var fs := WriteHardlink(s, workdir, path, link_to).fs;
      && IsDirectory(fs, dir) && FileName(path).value in Entries(fs, dir) && Entries(fs, dir)[FileName(path).value] == target.result.value.child
  {
    var target := Path(s, Reset(), workdir, link_to);
    var place := CreateParent(s, target.limits, workdir, path);
    var (dir, name) := place.result.value;
    var o := AddChild(place.fs, dir, name, target.result.value.child);
    assert IsDirectory(o.fs, dir) && name in Entries(o.fs, dir) && Entries(o.fs, dir)[name] == target.result.value.child;
  }
}
