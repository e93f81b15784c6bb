/**
 * The memory layout the loader reports to the kernel with `prctl(PR_SET_MM)`:
 * code, data and heap bounds widened as segments are loaded.
 */
module Layout {
  import opened Ints
  import opened ProtocolTypes
  import opened SandAbi

  const BRK_RND_MASK: nat := 0x1fff
  const PTR_MAX: usize := TWO_64 - 1

  function MinPtr(a: VPtr, b: VPtr): VPtr { if a.addr <= b.addr then a else b }
  function MaxPtr(a: VPtr, b: VPtr): VPtr { if a.addr >= b.addr then a else b }

  /** `addr.add(length)` must not overflow. */
  predicate EndFits(addr: VPtr, length: usize) { addr.addr + length < TWO_64 }

  /**
   * The bounds `(lo, hi)` after including `[addr, addr + length)`: the
   * smallest interval containing both the old bounds and the new range.
   */
  function Widen(lo: VPtr, hi: VPtr, addr: VPtr, length: usize): (r: (VPtr, VPtr))
    requires EndFits(addr, length)
    ensures r.0.addr <= addr.addr && r.0.addr <= lo.addr
    ensures r.1.addr >= addr.addr + length && r.1.addr >= hi.addr
    ensures r.0 == lo || r.0 == addr
    ensures r.1 == hi || r.1.addr == addr.addr + length
  {
    (MinPtr(lo, addr), MaxPtr(hi, addr.Add(length)))
  }

  /** Including two ranges in either order gives the same bounds. */
  lemma WidenCommutes(lo: VPtr, hi: VPtr, a: VPtr, m: usize, b: VPtr, n: usize)
    requires EndFits(a, m) && EndFits(b, n)
    ensures var (l1, h1) := Widen(lo, hi, a, m);
            var (l2, h2) := Widen(lo, hi, b, n);
            Widen(l1, h1, b, n) == Widen(l2, h2, a, m)
  {
  }

  /** Including a range twice changes nothing the second time. */
  lemma WidenIdempotent(lo: VPtr, hi: VPtr, a: VPtr, m: usize)
    requires EndFits(a, m)
    ensures var (l1, h1) := Widen(lo, hi, a, m);
            Widen(l1, h1, a, m) == (l1, h1)
  {
  }

  /** Starting from (max, null), including ranges yields their exact hull. */
  lemma WidenFromEmpty(a: VPtr, m: usize)
    requires EndFits(a, m)
    ensures Widen(VPtr(PTR_MAX), NullPtr(), a, m) == (a, a.Add(m))
  {
  }

  /** `start_brk + (random_offset << PAGE_SHIFT)` and its round-up must fit in 64 bits. */
  predicate BrkFits(startBrk: VPtr, random: usize)
  {
    var shifted := startBrk.addr + (random % (BRK_RND_MASK + 1)) * PAGE_SIZE;
    shifted < TWO_64 && RoundUpFits(shifted)
  }

  /**
   * The heap start after `randomize_brk`, with the random word as a
   * parameter: up to 0x1fff pages above the old start, rounded up to a page.
   */
  function RandomBrk(startBrk: VPtr, random: usize): (b: VPtr)
    requires BrkFits(startBrk, random)
    ensures b.addr >= startBrk.addr && b.addr % PAGE_SIZE == 0
    ensures b.addr < startBrk.addr + (BRK_RND_MASK + 1) * PAGE_SIZE
  {
    VPtr(PageRoundUp(startBrk.addr + (random % (BRK_RND_MASK + 1)) * PAGE_SIZE))
  }

  /** An aligned heap start with a zero random word stays where it is. */
  lemma RandomBrkZero(startBrk: VPtr)
    requires startBrk.addr % PAGE_SIZE == 0
    ensures BrkFits(startBrk, 0) && RandomBrk(startBrk, 0) == startBrk
  {
  }

  class MemLayout {
    var start_code: VPtr
    var end_code: VPtr
    var start_data: VPtr
    var end_data: VPtr
    var start_stack: VPtr
    var start_brk: VPtr
    var brk: VPtr
    var arg_start: VPtr
    var arg_end: VPtr
    var env_start: VPtr
    var env_end: VPtr
    var auxv_ptr: VPtr
    var auxv_len: usize
    var exe_file: VPtr

    /** `MemLayout::new`: empty code and data intervals (start at the top, end at null). */
    constructor (stack: VPtr)
      ensures start_code == VPtr(PTR_MAX) && end_code == NullPtr()
      ensures start_data == VPtr(PTR_MAX) && end_data == NullPtr()
      ensures start_stack == stack
      ensures start_brk == NullPtr() && brk == NullPtr()
      ensures arg_start == NullPtr() && arg_end == NullPtr()
      ensures env_start == NullPtr() && env_end == NullPtr()
      ensures auxv_ptr == NullPtr() && auxv_len == 0 && exe_file == NullPtr()
    {
      var nul := NullPtr();
      start_code, end_code := VPtr(PTR_MAX), nul;
      start_data, end_data := VPtr(PTR_MAX), nul;
      start_stack := stack;
      start_brk, brk := nul, nul;
      arg_start, arg_end, env_start, env_end := nul, nul, nul, nul;
      auxv_ptr, auxv_len, exe_file := nul, 0, nul;
    }

    /** `include_code`: widen the code bounds to cover the range. */
    method IncludeCode(addr: VPtr, length: usize)
      requires EndFits(addr, length)
      modifies this`start_code, this`end_code
      ensures (start_code, end_code) == Widen(old(start_code), old(end_code), addr, length)
    {
      start_code := MinPtr(start_code, addr);
      end_code := MaxPtr(end_code, addr.Add(length));
    }

    /** `include_data`: widen the data bounds to cover the range. */
    method IncludeData(addr: VPtr, length: usize)
      requires EndFits(addr, length)
      modifies this`start_data, this`end_data
      ensures (start_data, end_data) == Widen(old(start_data), old(end_data), addr, length)
    {
      start_data := MinPtr(start_data, addr);
      end_data := MaxPtr(end_data, addr.Add(length));
    }

    /** `include_memory`: both heap pointers move up to at least the end of the range. */
    method IncludeMemory(addr: VPtr, length: usize)
      requires EndFits(addr, length)
      modifies this`brk, this`start_brk
      ensures brk == MaxPtr(old(brk), addr.Add(length))
      ensures start_brk == MaxPtr(old(start_brk), addr.Add(length))
      ensures brk.addr >= addr.addr + length && start_brk.addr >= addr.addr + length
    {
      var end := addr.Add(length);
      brk := MaxPtr(brk, end);
      start_brk := MaxPtr(start_brk, end);
    }

    /** `randomize_brk`, with the random word from `getrandom` as a parameter. */
    method RandomizeBrk(random: usize)
      requires BrkFits(start_brk, random)
      modifies this`brk, this`start_brk
      ensures brk == start_brk == RandomBrk(old(start_brk), random)
    {
      var randomOffset := random % (BRK_RND_MASK + 1);
      var b := VPtr(PageRoundUp(start_brk.addr + randomOffset * PAGE_SIZE));
      brk := b;
      start_brk := b;
    }
  }
}
