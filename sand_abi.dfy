/**
 * The page arithmetic of the sandbox's x86-64 ABI definitions. PAGE_SIZE is
 * 1 << PAGE_SHIFT; masking with PAGE_MASK = PAGE_SIZE - 1 keeps the low
 * PAGE_SHIFT bits, which for a power of two is the remainder by PAGE_SIZE,
 * and masking with its complement clears them.
 */
module SandAbi {
  import opened Ints

  const PAGE_SHIFT: nat := 12
  const PAGE_SIZE: nat := 4096
  const PAGE_MASK: nat := PAGE_SIZE - 1

  /** `page_offset`: the position of `addr` inside its page. */
  function PageOffset(addr: usize): (r: usize)
    ensures r < PAGE_SIZE && r <= addr && (addr - r) % PAGE_SIZE == 0
  {
    addr % PAGE_SIZE
  }

  /** `page_round_down`: the start of the page holding `addr`. */
  function PageRoundDown(addr: usize): (r: usize)
    ensures r <= addr && r % PAGE_SIZE == 0 && addr - r < PAGE_SIZE
  {
    addr - addr % PAGE_SIZE
  }

  /** `PAGE_SIZE + page_round_down(addr)` must not overflow when `addr` is not aligned. */
  predicate RoundUpFits(addr: usize)
  {
    PageOffset(addr) == 0 || PageRoundDown(addr) + PAGE_SIZE < TWO_64
  }

  /** `page_round_up`: `addr` itself when aligned, else the start of the next page. */
  function PageRoundUp(addr: usize): (r: usize)
    requires RoundUpFits(addr)
    ensures r >= addr && r % PAGE_SIZE == 0 && r - addr < PAGE_SIZE
    ensures PageOffset(addr) == 0 ==> r == addr
  {
    if PageOffset(addr) == 0 then addr else PAGE_SIZE + PageRoundDown(addr)
  }

  /** The offset and the rounded-down address put `addr` back together. */
  lemma OffsetPlusRoundDown(addr: usize)
    ensures PageOffset(addr) + PageRoundDown(addr) == addr
  {
  }

  /** Any aligned address at or below `addr` is at or below `page_round_down(addr)`. */
  lemma {:induction false} RoundDownIsGreatest(addr: usize, x: nat)
    requires x <= addr && x % PAGE_SIZE == 0
    ensures x <= PageRoundDown(addr)
  {
    var r := PageRoundDown(addr);
    if x > r {
      AlignedGap(r, x);
    }
  }

  /** Any aligned address at or above `addr` is at or above `page_round_up(addr)`. */
  lemma {:induction false} RoundUpIsLeast(addr: usize, x: nat)
    requires RoundUpFits(addr) && x >= addr && x % PAGE_SIZE == 0
    ensures x >= PageRoundUp(addr)
  {
    var r := PageRoundUp(addr);
    if x < r {
      AlignedGap(x, r);
    }
  }

  /** Two different multiples of the page size are at least a page apart. */
  lemma AlignedGap(a: nat, b: nat)
    requires a < b && a % PAGE_SIZE == 0 && b % PAGE_SIZE == 0
    ensures b - a >= PAGE_SIZE
  {
    var qa, qb := a / PAGE_SIZE, b / PAGE_SIZE;
    assert a == qa * PAGE_SIZE && b == qb * PAGE_SIZE;
    assert qa < qb;
    assert b - a == (qb - qa) * PAGE_SIZE;
  }

  /** Rounding up a second time changes nothing. */
  lemma RoundUpIdempotent(addr: usize)
    requires RoundUpFits(addr)
    ensures RoundUpFits(PageRoundUp(addr)) && PageRoundUp(PageRoundUp(addr)) == PageRoundUp(addr)
  {
  }

  /** Rounding down a second time changes nothing. */
  lemma RoundDownIdempotent(addr: usize)
    ensures PageRoundDown(PageRoundDown(addr)) == PageRoundDown(addr)
  {
    assert PageRoundDown(addr) % PAGE_SIZE == 0;
  }
}
