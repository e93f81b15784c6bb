/**
 * A fixed-size buffer of classic BPF instructions (the sandbox's seccomp
 * filter) and the helpers that emit conditional blocks into it. The opcode
 * constants are those of Linux's `linux/filter.h` and `linux/bpf_common.h`.
 */
module Bpf {
  import opened Ints

  const SIZE_LIMIT: nat := 4096

  const BPF_LD: u16 := 0x00
  const BPF_ST: u16 := 0x02
  const BPF_JMP: u16 := 0x05
  const BPF_RET: u16 := 0x06
  const BPF_W: u16 := 0x00
  const BPF_IMM: u16 := 0x00
  const BPF_ABS: u16 := 0x20
  const BPF_JA: u16 := 0x00
  const BPF_JEQ: u16 := 0x10
  const BPF_K: u16 := 0x00

  /** `struct sock_filter`: an opcode, a constant, and the two relative jump offsets. */
  datatype SockFilter = SockFilter(code: u16, k: u32, jt: u8, jf: u8)

  const EMPTY: SockFilter := SockFilter(0, 0, 0, 0)

  /** `k as u32` on a `usize`: the low 32 bits. */
  function TruncU32(k: usize): (r: u32)
    ensures k < TWO_32 ==> r == k
  {
    k % TWO_32
  }

  /** `stmt`: an instruction that does not jump conditionally. */
  function Stmt(code: u16, k: u32): SockFilter
  {
    SockFilter(code, k, 0, 0)
  }

  /** `jump`: a conditional jump, `jt` forward on true and `jf` forward on false. */
  function Jump(code: u16, k: u32, jt: u8, jf: u8): SockFilter
  {
    SockFilter(code, k, jt, jf)
  }

  /** `jump_always`: skip `k` instructions. */
  function JumpAlways(k: u32): SockFilter
  {
    Stmt(BPF_JMP + BPF_JA, k)
  }

  /** `imm`: load the constant `k` into the accumulator. */
  function Imm(k: u32): SockFilter
  {
    Stmt(BPF_LD + BPF_W + BPF_IMM, k)
  }

  /** `ret`: return the constant `k` as the filter's verdict. */
  function Ret(k: u32): SockFilter
  {
    Stmt(BPF_RET + BPF_K, k)
  }

  /** `load`: load the word at offset `k` of the syscall data. */
  function Load(k: usize): SockFilter
  {
    Stmt(BPF_LD + BPF_W + BPF_ABS, TruncU32(k))
  }

  /** `store`: store the accumulator into scratch word `k`. */
  function Store(k: usize): SockFilter
  {
    Stmt(BPF_ST, TruncU32(k))
  }

  /**
   * Every instruction built on `stmt` falls through: both jump offsets are
   * zero. `load` and `store` keep an offset that fits in 32 bits, and the
   * five kinds of statement have five different opcodes.
   */
  lemma StatementsFallThrough(code: u16, k: u32, a: usize)
    ensures var fs := [Stmt(code, k), JumpAlways(k), Imm(k), Ret(k), Load(a), Store(a)];
      forall i :: 0 <= i < |fs| ==> fs[i].jt == 0 && fs[i].jf == 0
    ensures Stmt(code, k).code == code && Stmt(code, k).k == k
    ensures a < TWO_32 ==> Load(a).k == a && Store(a).k == a
    ensures var ops := [JumpAlways(k).code, Imm(k).code, Ret(k).code, Load(a).code, Store(a).code];
      forall i, j :: 0 <= i < j < |ops| ==> ops[i] != ops[j]
  {
  }

  /** The equality test `if_eq` and `if_any_eq` emit for `k`. */
  function EqJump(k: usize, jt: u8, jf: u8): SockFilter
  {
    Jump(BPF_JMP + BPF_JEQ + BPF_K, TruncU32(k), jt, jf)
  }

  /** The tests `if_any_eq` emits: the i-th jumps `n - i` forward on a match. */
  function AnyEqJumps(ks: seq<usize>): (js: seq<SockFilter>)
    requires |ks| < TWO_8
    ensures |js| == |ks|
  {
    seq(|ks|, i requires 0 <= i < |ks| => EqJump(ks[i], |ks| - i, 0))
  }

  /**
   * In the code `if_any_eq` emits, every test's match lands on the first
   * instruction of the block (the test at `i` lands on `i + 1 + jt`), its
   * miss falls through to the next instruction, and the unconditional jump
   * after the tests lands just past the block.
   */
  lemma AnyEqTargets(ks: seq<usize>, block: seq<SockFilter>)
    requires |ks| < TWO_8 && |block| < TWO_32
    ensures var code := AnyEqJumps(ks) + [JumpAlways(|block|)] + block;
      (forall i :: 0 <= i < |ks| ==>
         (code[i].code == BPF_JMP + BPF_JEQ + BPF_K && code[i].k == TruncU32(ks[i]) &&
          i + 1 + code[i].jt == |ks| + 1 && code[i].jf == 0)) &&
      |ks| + 1 + code[|ks|].k == |code| &&
      code[|ks| + 1..] == block
  {
    var code := AnyEqJumps(ks) + [JumpAlways(|block|)] + block;
    assert code[|ks| + 1..] == block;
  }

  /** In the code `if_eq` emits, a miss jumps just past the block and a match enters it. */
  lemma IfEqTargets(k: usize, block: seq<SockFilter>)
    requires |block| < TWO_8
    ensures var code := [EqJump(k, 0, |block|)] + block;
      code[0].jt == 0 && 1 + code[0].jf == |code| && code[1..] == block
  {
    var code := [EqJump(k, 0, |block|)] + block;
    assert code[1..] == block;
  }

  class ProgramBuffer {
    var len: nat
    const insts: array<SockFilter>

    ghost predicate Valid()
      reads this
    {
      insts.Length == SIZE_LIMIT && len <= SIZE_LIMIT
    }

    /** The instructions emitted so far. */
    function Program(): (p: seq<SockFilter>)
      reads this, insts
      requires Valid()
      ensures |p| == len
    {
      insts[..len]
    }

    /** `ProgramBuffer::new`: an empty program over a zeroed array. */
    constructor ()
      ensures Valid() && fresh(insts) && Program() == []
    {
      len := 0;
      insts := new SockFilter[SIZE_LIMIT](_ => EMPTY);
    }

    /** `inst`: append one instruction; a full buffer is a panic. */
    method Inst(instruction: SockFilter)
      requires Valid() && len < SIZE_LIMIT
      modifies this`len, insts
      ensures Valid() && Program() == old(Program()) + [instruction]
    {
      insts[len] := instruction;
      len := len + 1;
    }

    /** `block`: append the instructions in order. */
    method Block(block: seq<SockFilter>)
      requires Valid() && len + |block| <= SIZE_LIMIT
      modifies this`len, insts
      ensures Valid() && Program() == old(Program()) + block
    {
      for i := 0 to |block|
        invariant Valid() && Program() == old(Program()) + block[..i]
      {
        Inst(block[i]);
        assert block[..i + 1] == block[..i] + [block[i]];
      }
      assert block[..|block|] == block;
    }

    /** `if_eq`: run the block only when the accumulator equals `k`. */
    method IfEq(k: usize, block: seq<SockFilter>)
      requires Valid() && |block| < TWO_8 && len + 1 + |block| <= SIZE_LIMIT
      modifies this`len, insts
      ensures Valid() && Program() == old(Program()) + [EqJump(k, 0, |block|)] + block
    {
      Inst(Jump(BPF_JMP + BPF_JEQ + BPF_K, TruncU32(k), 0, |block|));
      Block(block);
    }

    /** `if_any_eq`: run the block when the accumulator equals any of `ks`. */
    method IfAnyEq(ks: seq<usize>, block: seq<SockFilter>)
      requires Valid() && |ks| < TWO_8 && |block| < TWO_32
      requires len + |ks| + 1 + |block| <= SIZE_LIMIT
      modifies this`len, insts
      ensures Valid() && Program() == old(Program()) + AnyEqJumps(ks) + [JumpAlways(|block|)] + block
    {
      var toBlock: u8 := |ks|;
      for i := 0 to |ks|
        invariant Valid() && len == old(len) + i
        invariant toBlock == |ks| - i
        invariant Program() == old(Program()) + AnyEqJumps(ks)[..i]
      {
        Inst(Jump(BPF_JMP + BPF_JEQ + BPF_K, TruncU32(ks[i]), toBlock, 0));
        assert AnyEqJumps(ks)[..i + 1] == AnyEqJumps(ks)[..i] + [AnyEqJumps(ks)[i]];
        toBlock := toBlock - 1;
      }
      assert AnyEqJumps(ks)[..|ks|] == AnyEqJumps(ks);
      Inst(JumpAlways(|block|));
      Block(block);
    }
  }
}
