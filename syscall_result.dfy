/** The value a handled syscall returns to the sandboxed process. */
module SyscallResults {
  import opened Ints
  import opened ProtocolTypes

  datatype SyscallResult = SyscallResult(value: isize)

  /** The values that convert into a syscall result, `Result` included. */
  datatype Returnable =
    | RErrno(err: Errno)
    | RUnit
    | RVPtr(ptr: VPtr)
    | RVPid(vpid: VPid)
    | RRemoteFd(fd: u32)
    | RUsize(n: usize)
    | ROk(ok: Returnable)
    | RErr(bad: Returnable)

  /** The `assert!` in each conversion holds: errnos are negative, everything else fits as non-negative. */
  predicate Convertible(x: Returnable)
  {
    match x
    case RErrno(e) => e.code < 0
    case RVPtr(p) => p.addr < TWO_64 / 2
    case RUsize(n) => n < TWO_64 / 2
    case ROk(v) => Convertible(v)
    case RErr(v) => Convertible(v)
    case _ => true
  }

  /** The value being returned once the `Result` wrappers are taken off. */
  function Inner(x: Returnable): (y: Returnable)
    ensures !y.ROk? && !y.RErr?
  {
    match x
    case ROk(v) => Inner(v)
    case RErr(v) => Inner(v)
    case _ => x
  }

  /** The `From` conversions: each value read as `isize`, `()` as 0, a `Result` through what it holds. */
  function Into(x: Returnable): (r: SyscallResult)
    requires Convertible(x)
    ensures Inner(x).RErrno? ==> r.value < 0
    ensures !Inner(x).RErrno? ==> r.value >= 0
  {
    match x
    case RErrno(e) => SyscallResult(e.code)
    case RUnit => SyscallResult(0)
    case RVPtr(p) => SyscallResult(UsizeAsIsize(p.addr))
    case RVPid(v) => SyscallResult(v.pid)
    case RRemoteFd(fd) => SyscallResult(fd)
    case RUsize(n) => SyscallResult(UsizeAsIsize(n))
    case ROk(v) => Into(v)
    case RErr(v) => Into(v)
  }

  /** For `Result<T, Errno>` with a non-error `T`, the sign of the result tells `Ok` from `Err`. */
  lemma {:induction false} SignTellsResult(x: Returnable)
    requires Convertible(x) && (x.ROk? || x.RErr?)
    requires x.ROk? ==> !Inner(x.ok).RErrno?
    requires x.RErr? ==> x.bad.RErrno?
    ensures x.ROk? <==> Into(x).value >= 0
  {
    if x.ROk? {
      assert Into(x) == Into(x.ok);
    }
  }

  /** A successful conversion keeps the value it returns. */
  lemma ValuesSurvive(x: Returnable)
    requires Convertible(x)
    ensures x.RVPtr? ==> Into(x).value == x.ptr.addr
    ensures x.RUsize? ==> Into(x).value == x.n
    ensures x.RErrno? ==> Into(x).value == x.err.code
    ensures x.RVPid? ==> Into(x).value == x.vpid.pid
    ensures x.RRemoteFd? ==> Into(x).value == x.fd
    ensures x.RUnit? ==> Into(x).value == 0
  {
  }
}
