/** Areas of a process's memory map, and the kernel-provided areas the sandbox must not touch. */
module KernelMem {
  import opened Wrappers
  import opened Ints
  import opened ProtocolTypes
  import opened Page
  import opened Maps

  /** The name column of a map line; `Unnamed` is the kernel's `None` (no name). */
  datatype KernelMemName = Unnamed | VDSO | VVar | VSyscall | Path | Other

  datatype KernelDevice = KernelDevice(major: usize, minor: usize)
  datatype KernelFile = KernelFile(device: KernelDevice, inode: usize)

  function NullFile(): KernelFile { KernelFile(KernelDevice(0, 0), 0) }

  datatype KernelMemArea = KernelMemArea(name: KernelMemName, pages: MappedPages, flags: MemFlags, file: KernelFile)

  /** The same mapping, maybe resized: equal name, flags and file, and overlapping pages. */
  function AreaIsOverlap(a: KernelMemArea, b: KernelMemArea): (r: bool)
    ensures r ==> a.name == b.name && a.flags == b.flags && a.file == b.file
  {
    a.name == b.name && a.flags == b.flags && a.file == b.file && IsOverlap(a.pages, b.pages)
  }

  lemma AreaIsOverlapSymmetric(a: KernelMemArea, b: KernelMemArea)
    ensures AreaIsOverlap(a, b) == AreaIsOverlap(b, a)
  {
    IsOverlapSymmetric(a.pages, b.pages);
  }

  /** Two areas overlap exactly when they agree on name, flags and file and share an address. */
  lemma AreaIsOverlapIff(a: KernelMemArea, b: KernelMemArea)
    ensures AreaIsOverlap(a, b) <==>
      (a.name == b.name && a.flags == b.flags && a.file == b.file && exists x :: InBoth(a.pages, b.pages, x))
  {
    IsOverlapIffShared(a.pages, b.pages);
  }

  datatype KernelMemAreas = KernelMemAreas(
    vdso: KernelMemArea,
    vvar: KernelMemArea,
    vsyscall: Option<KernelMemArea>,
    vdso_syscall: VPtr,
    task_end: VPage)

  /**
   * `is_userspace_area`: an area belongs to user space unless it overlaps the
   * vdso, the vvar, or the vsyscall area when there is one.
   * `UserspaceAvoidsKernel` states what that guarantees.
   */
  function IsUserspaceArea(k: KernelMemAreas, area: KernelMemArea): (r: bool)
  {
    if AreaIsOverlap(area, k.vdso) then false
    else if AreaIsOverlap(area, k.vvar) then false
    else if k.vsyscall.Some? && AreaIsOverlap(area, k.vsyscall.value) then false
    else true
  }

  /** `a` is the same mapping as `b` (name, flags and file) and shares an address with it. */
  ghost predicate SharesWith(a: KernelMemArea, b: KernelMemArea) {
    a.name == b.name && a.flags == b.flags && a.file == b.file && exists x :: InBoth(a.pages, b.pages, x)
  }

  /**
   * An area is user space exactly when it shares an address, as the same
   * mapping, with none of the vdso, the vvar and the vsyscall area when
   * there is one.
   */
  lemma UserspaceAvoidsKernel(k: KernelMemAreas, area: KernelMemArea)
    ensures IsUserspaceArea(k, area) <==>
      !SharesWith(area, k.vdso) && !SharesWith(area, k.vvar) &&
      (k.vsyscall.Some? ==> !SharesWith(area, k.vsyscall.value))
  {
    AreaIsOverlapIff(area, k.vdso);
    AreaIsOverlapIff(area, k.vvar);
    if k.vsyscall.Some? {
      AreaIsOverlapIff(area, k.vsyscall.value);
    }
  }
}
