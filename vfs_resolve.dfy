/**
 * Name resolution, as values: one component at a time, following symbolic
 * links between components, each step paid for from the limits.
 */
module VfsResolve {
  import opened Wrappers
  import opened ImageErrors
  import opened VfsNodes

  /** The outcome of a resolution and the limits left after it. */
  datatype Resolved = Resolved(result: Result<DirEntryRef, VFSError>, limits: Budget)

  /** `take_path_segment`: one segment less, or the limit error when none is left. */
  function TakePathSegment(b: Budget): (r: Result<Budget, VFSError>)
    ensures r.Ok? <==> b.path_segment > 0
    ensures r.Ok? ==> r.value == b.(path_segment := b.path_segment - 1)
    ensures r.Err? ==> r.error == PathSegmentLimitExceeded
  {
    if b.path_segment > 0 then Ok(b.(path_segment := b.path_segment - 1)) else Err(PathSegmentLimitExceeded)
  }

  /** `take_symbolic_link`: one link less, or the limit error when none is left. */
  function TakeSymbolicLink(b: Budget): (r: Result<Budget, VFSError>)
    ensures r.Ok? <==> b.symbolic_link > 0
    ensures r.Ok? ==> r.value == b.(symbolic_link := b.symbolic_link - 1)
    ensures r.Err? ==> r.error == SymbolicLinkLimitExceeded
  {
    if b.symbolic_link > 0 then Ok(b.(symbolic_link := b.symbolic_link - 1)) else Err(SymbolicLinkLimitExceeded)
  }

  /** `resolve_path_segment`: one component looked up in `parent`, after paying one segment. */
  function Segment(s: FsState, lim: Budget, parent: INodeNum, part: Name): Resolved {
    var taken := TakePathSegment(lim);
    if taken.Err? then Resolved(Err(taken.error), lim)
    else if part == ROOT_NAME then Resolved(Ok(DirEntryRef(s.root, s.root)), taken.value)
    else
      var node := GetINode(s, parent);
      if node.Err? then Resolved(Err(node.error), taken.value)
      else if !node.value.data.NormalDirectory? then Resolved(Err(DirectoryExpected), taken.value)
      else if part !in node.value.data.entries then Resolved(Err(NotFound), taken.value)
      else Resolved(Ok(DirEntryRef(parent, node.value.data.entries[part])), taken.value)
  }

  /** A segment pays exactly one unit when one is left, and nothing otherwise. */
  lemma SegmentLimits(s: FsState, lim: Budget, parent: INodeNum, part: Name)
    ensures var r := Segment(s, lim, parent, part);
      && (lim.path_segment == 0 ==> r == Resolved(Err(PathSegmentLimitExceeded), lim))
      && (lim.path_segment > 0 ==> r.limits == lim.(path_segment := lim.path_segment - 1))
  {
  }

  /**
   * `resolve_symlinks`: while the entry names a symbolic link, pay one link
   * and resolve the link's target from the directory the link is in.
   */
  function Symlinks(s: FsState, lim: Budget, e: DirEntryRef): (r: Resolved)
    ensures r.limits.symbolic_link <= lim.symbolic_link && r.limits.path_segment <= lim.path_segment
    decreases lim.symbolic_link, lim.path_segment, 0
  {
    var node := GetINode(s, e.child);
    if node.Err? then Resolved(Err(node.error), lim)
    else if !node.value.data.SymbolicLink? then Resolved(Ok(e), lim)
    else
      var taken := TakeSymbolicLink(lim);
      if taken.Err? then Resolved(Err(taken.error), lim)
      else
        var hop := Path(s, taken.value, e.parent, node.value.data.target);
        if hop.result.Err? then hop else Symlinks(s, hop.limits, hop.result.value)
  }

  /**
   * `resolve_path`: an empty path is the starting directory itself;
   * otherwise the first component is looked up directly and the rest
   * through `Rest`.
   */
  function Path(s: FsState, lim: Budget, parent: INodeNum, path: seq<Name>): (r: Resolved)
    ensures r.limits.symbolic_link <= lim.symbolic_link && r.limits.path_segment <= lim.path_segment
    decreases lim.symbolic_link, lim.path_segment, 2
  {
    if path == [] then Resolved(Ok(DirEntryRef(parent, parent)), lim)
    else
      var first := Segment(s, lim, parent, path[0]);
      if first.result.Err? then first else Rest(s, first.limits, first.result.value, path[1..])
  }

  /** The components after the first: links in the entry so far are followed before each lookup, never after the last. */
  function Rest(s: FsState, lim: Budget, e: DirEntryRef, parts: seq<Name>): (r: Resolved)
    ensures r.limits.symbolic_link <= lim.symbolic_link && r.limits.path_segment <= lim.path_segment
    decreases lim.symbolic_link, lim.path_segment, 1
  {
    if parts == [] then Resolved(Ok(e), lim)
    else
      var followed := Symlinks(s, lim, e);
      if followed.result.Err? then followed
      else
        var next := Segment(s, followed.limits, followed.result.value.child, parts[0]);
        if next.result.Err? then next else Rest(s, next.limits, next.result.value, parts[1..])
  }

  /** `open_at`: the path from the root with fresh limits, then any link it ends in. The starting directory is not used. */
  function Open(s: FsState, path: seq<Name>): Result<VFile, VFSError> {
    var r := Path(s, Reset(), s.root, path);
    if r.result.Err? then Err(r.result.error)
    else
      var f := Symlinks(s, r.limits, r.result.value);
      if f.result.Err? then Err(f.result.error) else Ok(VFile(f.result.value.child))
  }

  /** How one component resolves: `/` is the root, otherwise a directory's entry, or the matching error. */
  lemma SegmentCases(s: FsState, lim: Budget, parent: INodeNum, part: Name)
    requires lim.path_segment > 0
    ensures var r := Segment(s, lim, parent, part).result;
      && (part == ROOT_NAME ==> r == Ok(DirEntryRef(s.root, s.root)))
      && (part != ROOT_NAME && GetINode(s, parent).Err? ==> r == Err(UnallocNode))
      && (part != ROOT_NAME && GetINode(s, parent).Ok? && !IsDirectory(s, parent) ==> r == Err(DirectoryExpected))
      && (part != ROOT_NAME && IsDirectory(s, parent) && part !in Entries(s, parent) ==> r == Err(NotFound))
      && (part != ROOT_NAME && IsDirectory(s, parent) && part in Entries(s, parent) ==>
            r == Ok(DirEntryRef(parent, Entries(s, parent)[part])))
  {
  }

  /** An empty path is the starting directory, and costs nothing. */
  lemma EmptyPath(s: FsState, lim: Budget, parent: INodeNum)
    ensures Path(s, lim, parent, []) == Resolved(Ok(DirEntryRef(parent, parent)), lim)
  {
  }

  /** The last component is looked up but a link it names is not followed. */
  lemma LastNotFollowed(s: FsState, lim: Budget, parent: INodeNum, part: Name)
    ensures Path(s, lim, parent, [part]) == Segment(s, lim, parent, part)
  {
    var first := Segment(s, lim, parent, part);
    if first.result.Ok? {
      assert [part][1..] == [];
    }
  }

  /** Between two components, the links the first one names are followed. */
  lemma BetweenFollowed(s: FsState, lim: Budget, parent: INodeNum, a: Name, b: Name)
    requires Segment(s, lim, parent, a).result.Ok?
    ensures var first := Segment(s, lim, parent, a);
      var followed := Symlinks(s, first.limits, first.result.value);
      Path(s, lim, parent, [a, b]) ==
        if followed.result.Err? then followed
        else Segment(s, followed.limits, followed.result.value.child, b)
  {
    var first := Segment(s, lim, parent, a);
    assert [a, b][1..] == [b] && [b][1..] == [];
    var followed := Symlinks(s, first.limits, first.result.value);
    if followed.result.Ok? {
      var next := Segment(s, followed.limits, followed.result.value.child, b);
      assert Rest(s, first.limits, first.result.value, [b]) == (if next.result.Err? then next else Rest(s, next.limits, next.result.value, []));
    }
  }

  /**
   * A link that names itself: each hop pays one link and one segment and
   * comes back to the same link, so the links run out first and the
   * resolution ends in the link limit error (ELOOP).
   */
  lemma {:induction false} SelfLinkLoops(s: FsState, lim: Budget, dir: INodeNum, name: Name, link: INodeNum)
    requires name != ROOT_NAME && IsDirectory(s, dir) && name in Entries(s, dir) && Entries(s, dir)[name] == link
    requires GetINode(s, link).Ok? && GetINode(s, link).value.data == SymbolicLink([name])
    requires lim.path_segment >= lim.symbolic_link
    ensures Symlinks(s, lim, DirEntryRef(dir, link)).result == Err(SymbolicLinkLimitExceeded)
    ensures Errno(Symlinks(s, lim, DirEntryRef(dir, link)).result.error) == 40
    decreases lim.symbolic_link
  {
    if lim.symbolic_link > 0 {
      var after := lim.(symbolic_link := lim.symbolic_link - 1);
      LastNotFollowed(s, after, dir, name);
      var hop := Path(s, after, dir, [name]);
      assert hop == Resolved(Ok(DirEntryRef(dir, link)), Budget(lim.path_segment - 1, lim.symbolic_link - 1));
      SelfLinkLoops(s, hop.limits, dir, name, link);
    }
  }

  /** With fresh limits a self-naming link always ends in the link limit error. */
  lemma SelfLinkFromReset(s: FsState, dir: INodeNum, name: Name, link: INodeNum)
    requires name != ROOT_NAME && IsDirectory(s, dir) && name in Entries(s, dir) && Entries(s, dir)[name] == link
    requires GetINode(s, link).Ok? && GetINode(s, link).value.data == SymbolicLink([name])
    ensures Symlinks(s, Reset(), DirEntryRef(dir, link)).result == Err(SymbolicLinkLimitExceeded)
  {
    SelfLinkLoops(s, Reset(), dir, name, link);
  }

  /** An entry that is not a link is left as it is by `resolve_symlinks`. */
  lemma NotALink(s: FsState, lim: Budget, e: DirEntryRef)
    requires GetINode(s, e.child).Ok? && !GetINode(s, e.child).value.data.SymbolicLink?
    ensures Symlinks(s, lim, e) == Resolved(Ok(e), lim)
  {
  }

  /** A root directory that is not a link opens for the path `/`. */
  lemma OpenRoot(s: FsState)
    requires IsDirectory(s, s.root)
    ensures Open(s, [ROOT_NAME]) == Ok(VFile(s.root))
  {
    LastNotFollowed(s, Reset(), s.root, ROOT_NAME);
  }
}
