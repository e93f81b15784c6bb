/** Memory ranges backed by file data, and segment arithmetic for the loader. */
module Maps {
  import opened Ints
  import opened Wrappers
  import opened ProtocolTypes
  import opened SandAbi
  import opened Page

  const PROT_READ: int := 1
  const PROT_WRITE: int := 2
  const PROT_EXEC: int := 4

  /** Virtual address space that corresponds to file data starting at `file_start`. */
  datatype MappedRange = MappedRange(mem: PtrRange, file_start: usize)

  /** A `MappedRange` whose memory ends are whole pages. */
  datatype MappedPages = MappedPages(mem: PageRange, file_start: usize) {
    predicate Valid() { mem.Valid() }

    function MemRange(): (r: PtrRange)
      ensures r.start == mem.start.ptr && r.end == mem.end.ptr
    {
      PtrRange(mem.start.ptr, mem.end.ptr)
    }

    function MappedRangeOf(): (r: MappedRange)
      ensures r.mem == MemRange() && r.file_start == file_start
    {
      MappedRange(MemRange(), file_start)
    }

    predicate IsEmpty() { mem.IsEmpty() }
  }

  /**
   * `MappedPages::round_out`: widen the memory to whole pages and move the
   * file start down by as much as the memory start moved; the file offset
   * subtraction must not underflow.
   */
  predicate CanRoundOut(range: MappedRange)
  {
    RoundUpFits(range.mem.end.addr) && range.file_start >= Offset(range.mem.start)
  }

  function RoundOutPages(range: MappedRange): (r: MappedPages)
    requires CanRoundOut(range)
    ensures r.Valid() && r.mem == RoundOut(range.mem)
    ensures range.mem.start.addr - r.mem.start.ptr.addr == range.file_start - r.file_start
  {
    var mem := RoundOut(range.mem);
    var startOffset := range.mem.start.addr - mem.start.ptr.addr;
    MappedPages(mem, range.file_start - startOffset)
  }

  /** `MappedPages::anonymous`: memory with no file behind it, at file offset 0. */
  function Anonymous(mem: PageRange): (r: MappedPages)
    requires mem.Valid()
    ensures r.Valid() && r.mem == mem && r.file_start == 0
  {
    MappedPages(mem, 0)
  }

  /** `MappedPages::is_overlap`: empty ranges overlap nothing; else the later start is below the earlier end. */
  function IsOverlap(a: MappedPages, b: MappedPages): (r: bool)
    ensures r <==> (!a.IsEmpty() && !b.IsEmpty() &&
                    Max(a.mem.start.ptr.addr, b.mem.start.ptr.addr) < Min(a.mem.end.ptr.addr, b.mem.end.ptr.addr))
  {
    if a.IsEmpty() || b.IsEmpty() then false
    else
      var minEnd := Min(a.mem.end.ptr.addr, b.mem.end.ptr.addr);
      var maxStart := Max(a.mem.start.ptr.addr, b.mem.start.ptr.addr);
      maxStart < minEnd
  }

  function Min(x: int, y: int): int { if x <= y then x else y }
  function Max(x: int, y: int): int { if x >= y then x else y }

  /** An address both ranges hold. */
  predicate InBoth(a: MappedPages, b: MappedPages, x: int)
  {
    a.mem.start.ptr.addr <= x < a.mem.end.ptr.addr && b.mem.start.ptr.addr <= x < b.mem.end.ptr.addr
  }

  /** Two page ranges overlap exactly when some address lies in both. */
  lemma IsOverlapIffShared(a: MappedPages, b: MappedPages)
    ensures IsOverlap(a, b) <==> exists x :: InBoth(a, b, x)
  {
    if IsOverlap(a, b) {
      assert InBoth(a, b, Max(a.mem.start.ptr.addr, b.mem.start.ptr.addr));
    }
  }

  lemma IsOverlapSymmetric(a: MappedPages, b: MappedPages)
    ensures IsOverlap(a, b) == IsOverlap(b, a)
  {
  }

  /** `MappedPages::parse`: the file offset and both memory ends must be page aligned. */
  function ParsePages(range: MappedRange): (r: Result<MappedPages, ()>)
    ensures r.Ok? <==> PageOffset(range.file_start) == 0 && Offset(range.mem.start) == 0 && Offset(range.mem.end) == 0
    ensures r.Ok? ==> r.value.Valid() && r.value.MappedRangeOf() == range
  {
    if PageOffset(range.file_start) == 0 then
      match ParseRange(range.mem)
      case Ok(mem) => Ok(MappedPages(mem, range.file_start))
      case Err(_) => Err(())
    else Err(())
  }

  /** An aligned range parses to what `round_out` gives for it. */
  lemma ParseIsRoundOut(range: MappedRange)
    requires ParsePages(range).Ok?
    ensures CanRoundOut(range) && ParsePages(range) == Ok(RoundOutPages(range))
  {
    ParseIsRoundOutOfAligned(range.mem);
  }

  datatype MemProtect = MemProtect(read: bool, write: bool, execute: bool)

  datatype MemFlags = MemFlags(protect: MemProtect, mayshare: bool)

  function FlagsRo(): MemFlags { MemFlags(MemProtect(true, false, false), false) }
  function FlagsRw(): MemFlags { MemFlags(MemProtect(true, true, false), false) }
  function FlagsExec(): MemFlags { MemFlags(MemProtect(true, false, true), false) }

  function Bit(b: bool, flag: bv64): bv64 { if b then flag else 0 }

  /** `MemProtect::prot_flags`: the bitwise OR of the PROT_* bits of the set permissions. */
  function ProtFlags(p: MemProtect): (r: isize)
    ensures 0 <= r < 8
  {
    (Bit(p.read, 1) | Bit(p.write, 2) | Bit(p.execute, 4)) as int
  }

  /** Each permission is its own bit of `prot_flags`. */
  lemma ProtFlagsBits(p: MemProtect)
    ensures ProtFlags(p) == (if p.read then PROT_READ else 0) + (if p.write then PROT_WRITE else 0)
                          + (if p.execute then PROT_EXEC else 0)
    ensures p.read <==> ProtFlags(p) % 2 == 1
    ensures p.write <==> (ProtFlags(p) / 2) % 2 == 1
    ensures p.execute <==> ProtFlags(p) / 4 == 1
  {
  }

  /** `prot_flags` tells the permissions apart. */
  lemma ProtFlagsInjective(p: MemProtect, q: MemProtect)
    requires ProtFlags(p) == ProtFlags(q)
    ensures p == q
  {
    ProtFlagsBits(p);
    ProtFlagsBits(q);
  }

  /** A loadable piece of a program: file-backed memory, extra zeroed memory after it, and its protection. */
  datatype Segment = Segment(mapped_range: MappedRange, mem_size: usize, protect: MemProtect) {
    /** The mapped range must not run backwards for its length to exist. */
    predicate Ordered() { mapped_range.mem.start.addr <= mapped_range.mem.end.addr }

    function MappedLen(): (n: usize)
      requires Ordered()
      ensures mapped_range.mem.start.addr + n == mapped_range.mem.end.addr
    {
      mapped_range.mem.end.addr - mapped_range.mem.start.addr
    }
  }

  /** `Segment::mem_range`: from the mapped start to the mapped end plus `mem_size`. */
  function SegmentMemRange(s: Segment): (r: PtrRange)
    requires s.mapped_range.mem.end.addr + s.mem_size < TWO_64
    ensures r.start == s.mapped_range.mem.start && r.end.addr - s.mapped_range.mem.end.addr == s.mem_size
  {
    PtrRange(s.mapped_range.mem.start, s.mapped_range.mem.end.Add(s.mem_size))
  }

  /** `Segment::mem_pages`: the pages covering the whole memory range. */
  function SegmentMemPages(s: Segment): (r: PageRange)
    requires s.mapped_range.mem.end.addr + s.mem_size < TWO_64
    requires RoundUpFits(s.mapped_range.mem.end.addr + s.mem_size)
    ensures r.Valid() && r == RoundOut(SegmentMemRange(s))
  {
    RoundOut(SegmentMemRange(s))
  }

  /** `Segment::mapped_pages`. */
  function SegmentMappedPages(s: Segment): (r: MappedPages)
    requires CanRoundOut(s.mapped_range)
    ensures r.Valid() && r.mem == RoundOut(s.mapped_range.mem)
  {
    RoundOutPages(s.mapped_range)
  }

  /** `Segment::set_range_start`: move the mapped range to start at `addr`, keeping its length. */
  function SetRangeStart(s: Segment, addr: VPtr): (r: Segment)
    requires s.Ordered() && addr.addr + s.MappedLen() < TWO_64
    ensures r.Ordered() && r.MappedLen() == s.MappedLen() && r.mapped_range.mem.start == addr
    ensures r.mapped_range.file_start == s.mapped_range.file_start && r.mem_size == s.mem_size && r.protect == s.protect
  {
    var len := s.MappedLen();
    s.(mapped_range := s.mapped_range.(mem := PtrRange(addr, addr.Add(len))))
  }

  /** `Segment::set_page_start`: keep the offset within the page, move to page `addr`. */
  function SetPageStart(s: Segment, addr: VPage): (r: Segment)
    requires s.Ordered() && addr.Valid()
    requires addr.ptr.addr + Offset(s.mapped_range.mem.start) + s.MappedLen() < TWO_64
    ensures r.Ordered() && r.MappedLen() == s.MappedLen()
    ensures RoundDown(r.mapped_range.mem.start) == addr
    ensures Offset(r.mapped_range.mem.start) == Offset(s.mapped_range.mem.start)
  {
    var off := Offset(s.mapped_range.mem.start);
    var r := SetRangeStart(s, addr.ptr.Add(off));
    PageOfAligned(addr.ptr.addr, off);
    r
  }

  /** An aligned base plus an in-page offset has that base and that offset. */
  lemma PageOfAligned(base: usize, off: nat)
    requires base % PAGE_SIZE == 0 && off < PAGE_SIZE && base + off < TWO_64
    ensures PageOffset(base + off) == off && PageRoundDown(base + off) == base
  {
    var q := base / PAGE_SIZE;
    assert base == q * PAGE_SIZE;
    assert base + off == q * PAGE_SIZE + off;
  }

  /** `Segment::offset`: shift the mapped range up by `k`. */
  function OffsetBy(s: Segment, k: usize): (r: Segment)
    requires s.Ordered() && s.mapped_range.mem.start.addr + k + s.MappedLen() < TWO_64
    ensures r.Ordered() && r.MappedLen() == s.MappedLen()
    ensures r.mapped_range.mem.start.addr == s.mapped_range.mem.start.addr + k
    ensures r.mapped_range.mem.end.addr == s.mapped_range.mem.end.addr + k
  {
    SetRangeStart(s, s.mapped_range.mem.start.Add(k))
  }
}
