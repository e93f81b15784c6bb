/** `VPage`: a page-aligned pointer in the sandboxed process, and page ranges. */
module Page {
  import opened Ints
  import opened Wrappers
  import opened ProtocolTypes
  import opened SandAbi

  /** `count << PAGE_SHIFT` on a `usize`: the bits shifted past bit 63 are lost. */
  function PagesToBytes(count: usize): (r: usize)
    ensures r % PAGE_SIZE == 0
    ensures count * PAGE_SIZE < TWO_64 ==> r == count * PAGE_SIZE
  {
    var full := count * PAGE_SIZE;
    var q := full / TWO_64;
    assert full % TWO_64 == full - q * TWO_64;
    assert full - q * TWO_64 == (count - q * 0x10_0000_0000_0000) * PAGE_SIZE;
    full % TWO_64
  }

  /** A pointer to the beginning of a page. */
  datatype VPage = VPage(ptr: VPtr) {
    predicate Valid() { PageOffset(ptr.addr) == 0 }
  }

  datatype PtrRange = PtrRange(start: VPtr, end: VPtr)
  datatype PageRange = PageRange(start: VPage, end: VPage) {
    predicate Valid() { start.Valid() && end.Valid() }
    /** `Range::is_empty`: the start is not below the end. */
    predicate IsEmpty() { start.ptr.addr >= end.ptr.addr }
  }

  function Null(): (p: VPage)
    ensures p.Valid() && p.ptr.addr == 0
  {
    VPage(NullPtr())
  }

  /** `VPage::max`: the last page of the address space. */
  function Max(): (p: VPage)
    ensures p.Valid() && p.ptr.addr == TWO_64 - PAGE_SIZE
  {
    RoundDown(VPtr(TWO_64 - 1))
  }

  /** `VPage::offset`: the position of a pointer inside its page. */
  function Offset(ptr: VPtr): (r: usize)
    ensures r < PAGE_SIZE && ptr.addr - r == RoundDown(ptr).ptr.addr
  {
    PageOffset(ptr.addr)
  }

  /** `VPage::round_down`: the page holding `ptr`. */
  function RoundDown(ptr: VPtr): (p: VPage)
    ensures p.Valid() && p.ptr.addr <= ptr.addr < p.ptr.addr + PAGE_SIZE
  {
    VPage(VPtr(PageRoundDown(ptr.addr)))
  }

  /** `VPage::round_up`: the first page boundary at or after `ptr`. */
  function RoundUp(ptr: VPtr): (p: VPage)
    requires RoundUpFits(ptr.addr)
    ensures p.Valid() && ptr.addr <= p.ptr.addr < ptr.addr + PAGE_SIZE
    ensures Offset(ptr) == 0 ==> p.ptr == ptr
    ensures Offset(ptr) != 0 ==> p.ptr.addr == RoundDown(ptr).ptr.addr + PAGE_SIZE
  {
    if Offset(ptr) == 0 then VPage(ptr) else Add(RoundDown(ptr), 1)
  }

  /** `VPage::round_out`: the smallest page range covering `range`. */
  function RoundOut(range: PtrRange): (r: PageRange)
    requires RoundUpFits(range.end.addr)
    ensures r.Valid()
    ensures r.start.ptr.addr <= range.start.addr && r.end.ptr.addr >= range.end.addr
    ensures range.start.addr - r.start.ptr.addr < PAGE_SIZE && r.end.ptr.addr - range.end.addr < PAGE_SIZE
  {
    PageRange(RoundDown(range.start), RoundUp(range.end))
  }

  /** `VPage::parse`: only an aligned pointer is a page. */
  function Parse(ptr: VPtr): (r: Result<VPage, ()>)
    ensures r.Ok? <==> Offset(ptr) == 0
    ensures r.Ok? ==> r.value.Valid() && r.value.ptr == ptr
  {
    if Offset(ptr) == 0 then Ok(VPage(ptr)) else Err(())
  }

  /** `VPage::parse_range`: both ends must be aligned. */
  function ParseRange(range: PtrRange): (r: Result<PageRange, ()>)
    ensures r.Ok? <==> Offset(range.start) == 0 && Offset(range.end) == 0
    ensures r.Ok? ==> r.value.Valid() && r.value.start.ptr == range.start && r.value.end.ptr == range.end
  {
    var s := Parse(range.start);
    if s.Err? then Err(())
    else
      var e := Parse(range.end);
      if e.Err? then Err(()) else Ok(PageRange(s.value, e.value))
  }

  /** `VPage + count`: move up by `count` pages; the pointer addition must not overflow. */
  function Add(p: VPage, count: usize): (r: VPage)
    requires p.Valid() && p.ptr.addr + PagesToBytes(count) < TWO_64
    ensures r.Valid()
    ensures count * PAGE_SIZE < TWO_64 ==> r.ptr.addr == p.ptr.addr + count * PAGE_SIZE
  {
    VPage(p.ptr.Add(PagesToBytes(count)))
  }

  /** `VPage - count`: move down by `count` pages; the pointer subtraction must not underflow. */
  function Sub(p: VPage, count: usize): (r: VPage)
    requires p.Valid() && p.ptr.addr >= PagesToBytes(count)
    ensures r.Valid()
    ensures count * PAGE_SIZE < TWO_64 ==> r.ptr.addr == p.ptr.addr - count * PAGE_SIZE
  {
    VPage(VPtr(p.ptr.addr - PagesToBytes(count)))
  }

  /** Adding pages and taking them away again returns to the same page. */
  lemma AddSub(p: VPage, count: usize)
    requires p.Valid() && p.ptr.addr + PagesToBytes(count) < TWO_64
    ensures Sub(Add(p, count), count) == p
  {
  }

  /** A pointer lies in the page range `round_out` gives for any range it lies in. */
  lemma RoundOutCovers(range: PtrRange, x: usize)
    requires RoundUpFits(range.end.addr) && range.start.addr <= x < range.end.addr
    ensures RoundOut(range).start.ptr.addr <= x < RoundOut(range).end.ptr.addr
  {
  }

  /** Parsing an aligned range and rounding it out agree. */
  lemma ParseIsRoundOutOfAligned(range: PtrRange)
    requires Offset(range.start) == 0 && Offset(range.end) == 0
    ensures RoundUpFits(range.end.addr) && ParseRange(range) == Ok(RoundOut(range))
  {
  }
}
