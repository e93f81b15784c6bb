/**
 * The bookkeeping of the loader's `StackBuilder`: the stack grows down from
 * a randomised top page, and word vectors can be stored aside and pushed
 * later. The temporary file that holds the bytes is abstracted: each call
 * into it is a parameter standing for its outcome.
 */
module Stack {
  import opened Ints
  import opened Wrappers
  import opened ProtocolTypes
  import opened SandAbi
  import Page

  const BUILDER_SIZE_LIMIT: nat := 256 * 1024 * 1024
  const INITIAL_STACK_FREE: nat := 64 * 1024
  const STACK_RND_MASK: nat := 0x3fffff
  const E2BIG: i32 := 7
  const WORD: nat := 8

  /** A power of two, as `alignment & (alignment - 1) == 0` checks for a non-zero alignment. */
  predicate PowerOfTwo(n: nat)
    decreases n
  {
    n == 1 || (n >= 2 && n % 2 == 0 && PowerOfTwo(n / 2))
  }

  /** Masking with `!(alignment - 1)` clears the low bits: the address rounded down to a multiple. */
  function AlignDown(addr: usize, alignment: nat): (r: usize)
    requires alignment >= 1
    ensures r <= addr && r % alignment == 0 && addr - r < alignment
  {
    RoundedDownMod(addr, alignment);
    addr - addr % alignment
  }

  /** Taking away the remainder leaves a multiple. */
  lemma RoundedDownMod(x: nat, a: nat)
    requires a >= 1
    ensures (x - x % a) % a == 0
  {
    var q := x / a;
    assert x - x % a == q * a;
    MultipleMod(q, a);
  }

  /** A multiple of `a` leaves no remainder. */
  lemma MultipleMod(q: nat, a: nat)
    requires a >= 1
    ensures (q * a) % a == 0
  {
    var d, m := (q * a) / a, (q * a) % a;
    assert q * a == d * a + m && 0 <= m < a;
    var k := q - d;
    assert k * a == q * a - d * a;
    if k >= 1 {
      AtLeastOnce(k, a);
    } else if k <= -1 {
      AtLeastOnce(-k, a);
    }
  }

  /** At least one copy of `a`. */
  lemma AtLeastOnce(k: int, a: int)
    requires k >= 1 && a >= 0
    ensures k * a >= a
  {
    assert k * a == (k - 1) * a + a;
    assert (k - 1) * a >= 0;
  }

  /** Every aligned address at or below `addr` is at or below `AlignDown(addr, alignment)`. */
  lemma {:induction false} AlignDownIsGreatest(addr: usize, alignment: nat, x: nat)
    requires alignment >= 1 && x <= addr && x % alignment == 0
    ensures x <= AlignDown(addr, alignment)
  {
    var r := AlignDown(addr, alignment);
    if x > r {
      MultiplesGap(r, x, alignment);
    }
  }

  /** Two different multiples of `a` are at least `a` apart. */
  lemma MultiplesGap(r: nat, x: nat, a: nat)
    requires a >= 1 && r < x && r % a == 0 && x % a == 0
    ensures x - r >= a
  {
    var qr, qx := r / a, x / a;
    assert r == qr * a && x == qx * a;
    var k := qx - qr;
    assert x - r == k * a;
    assert k >= 1;
    assert k * a == (k - 1) * a + a;
    assert (k - 1) * a >= 0;
  }

  /** `randomize_stack_top`: up to 0x3fffff pages below the limit. */
  function RandomTop(limit: Page.VPage, random: usize): (t: Page.VPage)
    requires limit.Valid() && limit.ptr.addr >= (random % (STACK_RND_MASK + 1)) * PAGE_SIZE
    ensures t.Valid() && t.ptr.addr <= limit.ptr.addr
    ensures limit.ptr.addr - t.ptr.addr == (random % (STACK_RND_MASK + 1)) * PAGE_SIZE
  {
    Page.Sub(limit, random % (STACK_RND_MASK + 1))
  }

  /** The stack as it is handed to the new program. */
  datatype InitialStack = InitialStack(sp: VPtr, pages: Page.PageRange)

  /** `InitialStack::load`'s layout: the stack pointer, and pages from 64 KiB below it up to the top. */
  function InitialStackOf(top: Page.VPage, bottom: VPtr): (s: InitialStack)
    requires bottom.addr >= INITIAL_STACK_FREE
    ensures s.sp == bottom && s.pages.end == top
    ensures s.pages.start.Valid() && s.pages.start.ptr.addr <= bottom.addr - INITIAL_STACK_FREE
    ensures bottom.addr - INITIAL_STACK_FREE - s.pages.start.ptr.addr < PAGE_SIZE
  {
    InitialStack(bottom, Page.PageRange(Page.RoundDown(VPtr(bottom.addr - INITIAL_STACK_FREE)), top))
  }

  /** Whether lowering the bottom to `ptr` keeps the stack within the builder's limit. */
  predicate WithinLimit(top: Page.VPage, ptr: usize)
    requires ptr <= top.ptr.addr
  {
    top.ptr.addr - ptr <= BUILDER_SIZE_LIMIT
  }

  class StackBuilder {
    var top: Page.VPage
    var bottom: VPtr
    var num_stored_vectors: usize

    /** The stack never grows above its top. */
    ghost predicate Valid()
      reads this
    {
      top.Valid() && bottom.addr <= top.ptr.addr
    }

    /** `StackBuilder::new`, with the random word and the task's end page as parameters. */
    constructor (taskEnd: Page.VPage, random: usize)
      requires taskEnd.Valid() && taskEnd.ptr.addr >= (random % (STACK_RND_MASK + 1)) * PAGE_SIZE
      ensures Valid() && top == RandomTop(taskEnd, random) && bottom == top.ptr && num_stored_vectors == 0
    {
      top := RandomTop(taskEnd, random);
      bottom := RandomTop(taskEnd, random).ptr;
      num_stored_vectors := 0;
    }

    /** `load`, for its layout only: it may only run once every stored vector has been pushed. */
    method Load() returns (s: InitialStack)
      requires Valid() && num_stored_vectors == 0 && bottom.addr >= INITIAL_STACK_FREE
      ensures s == InitialStackOf(top, bottom)
    {
      s := InitialStackOf(top, bottom);
    }

    /** `align`: round the bottom down to a power-of-two alignment. */
    method Align(alignment: usize) returns (p: VPtr)
      requires Valid() && PowerOfTwo(alignment)
      modifies this`bottom
      ensures Valid()
      ensures p == bottom && bottom.addr == AlignDown(old(bottom.addr), alignment)
    {
      p := VPtr(AlignDown(bottom.addr, alignment));
      bottom := p;
    }

    /** `skip_bytes`: reserve `length` bytes below the bottom, or E2BIG past the 256 MiB limit. */
    method SkipBytes(length: usize) returns (r: Result<VPtr, Errno>)
      requires Valid() && length <= bottom.addr
      modifies this`bottom
      ensures Valid()
      ensures r.Err? <==> !WithinLimit(top, old(bottom.addr) - length)
      ensures r.Err? ==> r.error == Errno(-E2BIG) && bottom == old(bottom)
      ensures r.Ok? ==> r.value == bottom && bottom.addr == old(bottom.addr) - length
    {
      var ptr := VPtr(bottom.addr - length);
      var stackSize := top.ptr.addr - ptr.addr;
      if stackSize > BUILDER_SIZE_LIMIT {
        return Err(Errno(-E2BIG));
      }
      bottom := ptr;
      r := Ok(ptr);
    }

    /**
     * `stored_vector_bytes`: eight bytes per stored word. `StoreVectors`
     * and `PushStoredVectors` state how it grows and what it moves.
     */
    function StoredVectorBytes(): (n: nat)
      reads this
    {
      num_stored_vectors * WORD
    }

    /**
     * `store_vectors`, with the outcome of writing them to the temporary
     * file as `written`; the words must fit the scratch area.
     */
    method StoreVectors(vectors: seq<usize>, scratchLen: nat, written: Result<(), Errno>) returns (r: Result<(), Errno>)
      requires |vectors| * WORD <= scratchLen
      requires num_stored_vectors + |vectors| < TWO_64
      modifies this`num_stored_vectors
      ensures r.Ok? <==> written.Ok?
      ensures r.Err? ==> r.error == written.error
      ensures r.Ok? ==> num_stored_vectors == old(num_stored_vectors) + |vectors|
      ensures r.Ok? ==> StoredVectorBytes() == old(StoredVectorBytes()) + |vectors| * WORD
      ensures r.Err? ==> num_stored_vectors == old(num_stored_vectors)
    {
      if written.Err? {
        return Err(written.error);
      }
      num_stored_vectors := num_stored_vectors + |vectors|;
      r := Ok(());
    }

    /**
     * `push_stored_vectors`, with the outcome of the file-to-file copy as
     * `copied`: every stored word moves to the bottom of the stack.
     */
    method PushStoredVectors(copied: Result<(), Errno>) returns (r: Result<VPtr, Errno>)
      requires Valid() && StoredVectorBytes() <= bottom.addr
      modifies this`bottom, this`num_stored_vectors
      ensures Valid()
      ensures var ptr := old(bottom.addr) - old(StoredVectorBytes());
        (!WithinLimit(top, ptr) ==> r == Err(Errno(-E2BIG))) &&
        (WithinLimit(top, ptr) && copied.Err? ==> r == Err(copied.error)) &&
        (r.Err? ==> bottom == old(bottom) && num_stored_vectors == old(num_stored_vectors)) &&
        (r.Ok? <==> WithinLimit(top, ptr) && copied.Ok?) &&
        (r.Ok? ==> r.value == bottom && bottom.addr == ptr && num_stored_vectors == 0 && StoredVectorBytes() == 0)
    {
      var length := num_stored_vectors * WORD;
      var ptr := VPtr(bottom.addr - length);
      var stackSize := top.ptr.addr - ptr.addr;
      if stackSize > BUILDER_SIZE_LIMIT {
        return Err(Errno(-E2BIG));
      }
      if copied.Err? {
        return Err(copied.error);
      }
      bottom := ptr;
      num_stored_vectors := 0;
      r := Ok(ptr);
    }
  }

  /** A fresh builder's stack is empty, so only a reservation above the limit can fail. */
  lemma FreshWithinLimit(top: Page.VPage, length: usize)
    requires top.Valid() && length <= top.ptr.addr
    ensures WithinLimit(top, top.ptr.addr - length) <==> length <= BUILDER_SIZE_LIMIT
  {
  }
}
