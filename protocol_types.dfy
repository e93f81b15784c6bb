/** Small newtypes shared by the protocol and the sandbox. */
module ProtocolTypes {
  import opened Ints

  /** A pointer in the sandboxed process's address space. */
  datatype VPtr = VPtr(addr: usize) {
    /** `VPtr::add`: plain addition, which must not overflow. */
    function Add(count: usize): (p: VPtr)
      requires addr + count < TWO_64
      ensures p.addr - addr == count
    {
      VPtr(addr + count)
    }
  }

  function NullPtr(): VPtr { VPtr(0) }

  /** A process id in the sandbox's own numbering. */
  datatype VPid = VPid(pid: u32)

  /** A kernel process id. */
  datatype SysPid = SysPid(pid: u32)

  /** An error number as the kernel reports it (negative in syscall returns). */
  datatype Errno = Errno(code: i32)
}
