/**
 * The pieces of the x86-64 kernel ABI that the sand protocol shares: the
 * syscall record and how its fields map to and from the saved user registers.
 */
module ProtocolAbi {
  import opened Ints

  /** A syscall as the tracer reports it: number, six arguments, return value, ip and sp. */
  datatype Syscall = Syscall(nr: isize, args: seq<isize>, ret: isize, ip: usize, sp: usize)

  /** `user_regs_struct` of linux/arch/x86/include/asm/user_64.h. */
  class UserRegs {
    var r15: usize
    var r14: usize
    var r13: usize
    var r12: usize
    var bp: usize
    var bx: usize
    var r11: usize
    var r10: usize
    var r9: usize
    var r8: usize
    var ax: usize
    var cx: usize
    var dx: usize
    var si: usize
    var di: usize
    var orig_ax: usize
    var ip: usize
    var cs: usize
    var flags: usize
    var sp: usize
    var ss: usize
    var fs_base: usize
    var gs_base: usize
    var ds: usize
    var es: usize
    var fs: usize
    var gs: usize

    /** `UserRegs::default()`: every register zero. */
    constructor ()
      ensures r15 == 0 && r14 == 0 && r13 == 0 && r12 == 0 && bp == 0 && bx == 0 && r11 == 0
      ensures r10 == 0 && r9 == 0 && r8 == 0 && ax == 0 && cx == 0 && dx == 0 && si == 0 && di == 0
      ensures orig_ax == 0 && ip == 0 && cs == 0 && flags == 0 && sp == 0 && ss == 0
      ensures fs_base == 0 && gs_base == 0 && ds == 0 && es == 0 && fs == 0 && gs == 0
    {
      r15, r14, r13, r12, bp, bx, r11 := 0, 0, 0, 0, 0, 0, 0;
      r10, r9, r8, ax, cx, dx, si, di := 0, 0, 0, 0, 0, 0, 0, 0;
      orig_ax, ip, cs, flags, sp, ss := 0, 0, 0, 0, 0, 0;
      fs_base, gs_base, ds, es, fs, gs := 0, 0, 0, 0, 0, 0;
    }

    /** The six argument registers of the syscall convention, in argument order. */
    function ArgRegs(): (rs: seq<usize>)
      reads this
      ensures |rs| == 6
    {
      [di, si, dx, r10, r8, r9]
    }
  }

  /** The argument at position `i`, or 0 past the end: `*args.get(i).unwrap_or(&0)`. */
  function ArgOrZero(args: seq<isize>, i: nat): isize
  {
    if i < |args| then args[i] else 0
  }

  /** The arguments padded with zeroes to all six registers. */
  function Padded(args: seq<isize>): (p: seq<isize>)
    requires |args| <= 6
    ensures |p| == 6 && p[..|args|] == args
    ensures forall i :: |args| <= i < 6 ==> p[i] == 0
  {
    args + seq(6 - |args|, _ => 0)
  }

  /**
   * `Syscall::from_regs`: the number from orig_ax, the return from ax, the
   * arguments from the six argument registers, each read as signed, and ip
   * and sp copied. What it promises is stated by `RetRoundTrip` and
   * `ArgsRoundTrip` against the methods that write the registers.
   */
  function FromRegs(regs: UserRegs): (s: Syscall)
    reads regs
  {
    var a := regs.ArgRegs();
    Syscall(UsizeAsIsize(regs.orig_ax),
            [UsizeAsIsize(a[0]), UsizeAsIsize(a[1]), UsizeAsIsize(a[2]),
             UsizeAsIsize(a[3]), UsizeAsIsize(a[4]), UsizeAsIsize(a[5])],
            UsizeAsIsize(regs.ax), regs.ip, regs.sp)
  }

  /** `Syscall::args_to_regs`: at most six arguments, missing ones written as 0; only the argument registers change. */
  method ArgsToRegs(args: seq<isize>, regs: UserRegs)
    requires |args| <= 6
    modifies regs`di, regs`si, regs`dx, regs`r10, regs`r8, regs`r9
    ensures forall i :: 0 <= i < 6 ==> regs.ArgRegs()[i] == IsizeAsUsize(ArgOrZero(args, i))
  {
    regs.di := IsizeAsUsize(ArgOrZero(args, 0));
    regs.si := IsizeAsUsize(ArgOrZero(args, 1));
    regs.dx := IsizeAsUsize(ArgOrZero(args, 2));
    regs.r10 := IsizeAsUsize(ArgOrZero(args, 3));
    regs.r8 := IsizeAsUsize(ArgOrZero(args, 4));
    regs.r9 := IsizeAsUsize(ArgOrZero(args, 5));
  }

  /** `Syscall::nr_to_regs`: the number goes to ax, and nothing else changes. */
  method NrToRegs(nr: isize, regs: UserRegs)
    modifies regs`ax
    ensures regs.ax == IsizeAsUsize(nr)
  {
    regs.ax := IsizeAsUsize(nr);
  }

  /** `Syscall::ret_to_regs`: the return value goes to ax, and nothing else changes. */
  method RetToRegs(ret: isize, regs: UserRegs)
    modifies regs`ax
    ensures regs.ax == IsizeAsUsize(ret)
  {
    regs.ax := IsizeAsUsize(ret);
  }

  /** `Syscall::ret_from_regs`: ax read as signed. */
  function RetFromRegs(regs: UserRegs): (r: isize)
    reads regs
    ensures r == FromRegs(regs).ret
  {
    UsizeAsIsize(regs.ax)
  }

  /** `Syscall::orig_nr_to_regs`: the syscall number to resume goes to orig_ax, and nothing else changes. */
  method OrigNrToRegs(nr: isize, regs: UserRegs)
    modifies regs`orig_ax
    ensures regs.orig_ax == IsizeAsUsize(nr)
  {
    regs.orig_ax := IsizeAsUsize(nr);
  }

  /** A signed register value survives the trip through an unsigned register. */
  lemma {:induction false} RegisterRoundTrip(v: isize)
    ensures UsizeAsIsize(IsizeAsUsize(v)) == v
  {
    SignedRoundTrip(v, W64);
  }

  /** Reading back the return value written by `ret_to_regs` gives it back. */
  method RetRoundTrip(ret: isize, regs: UserRegs) returns (r: isize)
    modifies regs`ax
    ensures r == ret
  {
    RetToRegs(ret, regs);
    r := RetFromRegs(regs);
    RegisterRoundTrip(ret);
  }

  /** Writing the arguments and decoding the registers gives them back, zero-padded to six. */
  method ArgsRoundTrip(args: seq<isize>, regs: UserRegs) returns (s: Syscall)
    requires |args| <= 6
    modifies regs`di, regs`si, regs`dx, regs`r10, regs`r8, regs`r9
    ensures s.args == Padded(args)
  {
    ArgsToRegs(args, regs);
    s := FromRegs(regs);
    forall i | 0 <= i < 6
      ensures s.args[i] == Padded(args)[i]
    {
      RegisterRoundTrip(ArgOrZero(args, i));
    }
  }
}
