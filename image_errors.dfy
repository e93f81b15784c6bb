/**
 * The errors of the crate that the model raises: image errors from the
 * reference parsers and the tar reader, and virtual filesystem errors with
 * the Linux error numbers they are reported as.
 */
module ImageErrors {
  datatype ImageError =
    | InvalidReferenceFormat(input: string)
    | ContentDigestMismatch(expected: string, found: string)
    | TARFileError
    | ImageVFSError(vfs: VFSError)

  datatype VFSError =
    | ImageStorageError
    | DirectoryExpected
    | FileExpected
    | UnallocNode
    | NotFound
    | PathSegmentLimitExceeded
    | SymbolicLinkLimitExceeded
    | INodeRefCountError

  /** The Linux error number each error is reported as. */
  function Errno(e: VFSError): (n: int)
    ensures n > 0
  {
    match e
    case ImageStorageError => 5          // EIO
    case DirectoryExpected => 20         // ENOTDIR
    case FileExpected => 21              // EISDIR
    case UnallocNode => 2                // ENOENT
    case NotFound => 2                   // ENOENT
    case PathSegmentLimitExceeded => 36  // ENAMETOOLONG
    case SymbolicLinkLimitExceeded => 40 // ELOOP
    case INodeRefCountError => 12        // ENOMEM
  }

  /** Two errors share a number only when they are the same, or are the two "no such entry" errors. */
  lemma ErrnoDistinct(a: VFSError, b: VFSError)
    ensures Errno(a) == Errno(b) <==> a == b || ({a, b} == {UnallocNode, NotFound})
  {
    if {a, b} == {UnallocNode, NotFound} {
      assert a in {UnallocNode, NotFound} && b in {UnallocNode, NotFound};
    }
  }
}
