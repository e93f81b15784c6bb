/**
 * The IPC buffer: a pair of fixed-capacity queues, one of bytes and one of
 * file descriptors, that messages are serialized into and read back from.
 */
module IpcBuffer {
  import opened Wrappers
  import opened Ints

  /** Errors of the IPC protocol layer. */
  datatype Error = Unimplemented | UnexpectedEnd | BufferFull | InvalidValue | Serialize | Deserialize

  /** A raw file descriptor number carried out-of-band. */
  datatype SysFd = SysFd(fd: u32)

  /** Capacity of the byte queue. */
  const BYTES_MAX: nat := 4096
  /** Capacity of the file queue. */
  const FILES_MAX: nat := 128

  /**
   * A queue over a fixed array: `arr[start..end]` holds the unread items,
   * `arr[end..]` is free space that is only reclaimed by `BeginFill`.
   */
  class Queue<T(0)> {
    const arr: array<T>
    var start: nat
    var end: nat

    ghost predicate Valid()
      reads this
    {
      start <= end <= arr.Length
    }

    /** The unread items. */
    function Contents(): seq<T>
      reads this, arr
      requires Valid()
    {
      arr[start..end]
    }

    function Capacity(): nat
      reads this
    {
      arr.Length
    }

    constructor (capacity: nat)
      ensures Valid() && fresh(arr)
      ensures Capacity() == capacity && Contents() == [] && end == 0
    {
      arr := new T[capacity];
      start, end := 0, 0;
    }

    function IsEmpty(): (b: bool)
      reads this, arr
      requires Valid()
      ensures b <==> Contents() == []
    {
      start == end
    }

    /** Appends one item, or fails with BufferFull exactly when the end has reached the capacity. */
    method PushBack(item: T) returns (r: Result<(), Error>)
      requires Valid()
      modifies this, arr
      ensures Valid()
      ensures r.Err? <==> old(end) == arr.Length
      ensures r.Err? ==> r.error == BufferFull && unchanged(this) && unchanged(arr)
      ensures r.Ok? ==> Contents() == old(Contents()) + [item] && start == old(start) && end == old(end) + 1
      ensures r.Ok? ==> arr[..old(start)] == old(arr[..start])
    {
      if end < arr.Length {
        arr[end] := item;
        end := end + 1;
        r := Ok(());
      } else {
        r := Err(BufferFull);
      }
    }

    /** Appends all of `items`, or none of them when they do not all fit. */
    method Extend(items: seq<T>) returns (r: Result<(), Error>)
      requires Valid()
      modifies this, arr
      ensures Valid()
      ensures r.Err? <==> old(end) + |items| > arr.Length
      ensures r.Err? ==> r.error == BufferFull && unchanged(this) && unchanged(arr)
      ensures r.Ok? ==> Contents() == old(Contents()) + items && start == old(start) && end == old(end) + |items|
      ensures r.Ok? ==> arr[..old(start)] == old(arr[..start])
    {
      var newEnd := end + |items|;
      if newEnd > arr.Length {
        return Err(BufferFull);
      }
      var i := 0;
      while i < |items|
        invariant 0 <= i <= |items|
        invariant start == old(start) && end == old(end)
        invariant arr[..end] == old(arr[..end])
        invariant arr[end..end + i] == items[..i]
      {
        arr[end + i] := items[i];
        i := i + 1;
      }
      assert arr[start..end] == old(arr[start..end]);
      assert arr[start..newEnd] == arr[start..end] + arr[end..newEnd];
      end := newEnd;
      r := Ok(());
    }

    /** Drops `count` unread items from the front; the source asserts there are that many. */
    method PopFront(count: nat)
      requires Valid() && start + count <= end
      modifies this
      ensures Valid() && start == old(start) + count && end == old(end)
      ensures Contents() == old(Contents())[count..]
    {
      start := start + count;
    }

    /**
     * Moves the unread items to the start of the array, unchanged, and returns
     * the index from which the free tail `arr[end..]` may be written.
     */
    method BeginFill() returns (tail: nat)
      requires Valid()
      modifies this, arr
      ensures Valid() && start == 0 && tail == end
      ensures Contents() == old(Contents())
      ensures tail == |Contents()| && arr.Length - tail == Capacity() - |old(Contents())|
    {
      var len := end - start;
      ghost var unread := arr[start..end];
      var i := 0;
      while i < len
        invariant 0 <= i <= len
        invariant start == old(start) && end == old(end)
        invariant forall k :: 0 <= k < i ==> arr[k] == unread[k]
        invariant forall k :: start + i <= k < end ==> arr[k] == unread[k - start]
      {
        arr[i] := arr[start + i];
        i := i + 1;
      }
      assert arr[..len] == unread;
      start, end := 0, len;
      tail := len;
    }

    /** Makes `len` items written into the free tail part of the contents; the source asserts they fit. */
    method CommitFill(len: nat)
      requires Valid() && end + len <= arr.Length
      modifies this
      ensures Valid() && start == old(start) && end == old(end) + len
      ensures Contents() == old(Contents()) + arr[old(end)..end]
    {
      assert arr[start..end + len] == arr[start..end] + arr[end..end + len];
      end := end + len;
    }

    /** The first `len` unread items, or UnexpectedEnd when fewer are available. */
    function Front(len: nat): (r: Result<seq<T>, Error>)
      reads this, arr
      requires Valid()
      ensures r.Err? <==> len > |Contents()|
      ensures r.Err? ==> r.error == UnexpectedEnd
      ensures r.Ok? ==> |r.value| == len && r.value <= Contents()
    {
      if len <= end - start then Ok(arr[start..start + len]) else Err(UnexpectedEnd)
    }
  }

  /** A byte queue of 4096 and a file queue of 128, in step with each other. */
  class IPCBuffer {
    const bytes: Queue<u8>
    const files: Queue<SysFd>

    ghost predicate Valid()
      reads this, bytes, files
    {
      bytes.Valid() && files.Valid() && bytes.Capacity() == BYTES_MAX && files.Capacity() == FILES_MAX
    }

    function Bytes(): seq<u8>
      reads this, bytes, bytes.arr
      requires bytes.Valid()
    {
      bytes.Contents()
    }

    function Files(): seq<SysFd>
      reads this, files, files.arr
      requires files.Valid()
    {
      files.Contents()
    }

    constructor ()
      ensures Valid() && fresh(bytes) && fresh(files) && fresh(bytes.arr) && fresh(files.arr)
      ensures Bytes() == [] && Files() == [] && bytes.end == 0 && files.end == 0
    {
      bytes := new Queue<u8>(BYTES_MAX);
      files := new Queue<SysFd>(FILES_MAX);
    }

    /** Empty exactly when neither queue holds anything. */
    function IsEmpty(): (b: bool)
      reads this, bytes, bytes.arr, files, files.arr
      requires Valid()
      ensures b <==> Bytes() == [] && Files() == []
    {
      bytes.IsEmpty() && files.IsEmpty()
    }

    method ExtendBytes(data: seq<u8>) returns (r: Result<(), Error>)
      requires Valid()
      modifies bytes, bytes.arr
      ensures Valid() && Files() == old(Files())
      ensures r.Err? <==> old(bytes.end) + |data| > BYTES_MAX
      ensures r.Ok? ==> Bytes() == old(Bytes()) + data && bytes.end == old(bytes.end) + |data|
      ensures r.Err? ==> r.error == BufferFull && Bytes() == old(Bytes()) && bytes.end == old(bytes.end)
    {
      r := bytes.Extend(data);
    }

    method PushBackByte(b: u8) returns (r: Result<(), Error>)
      requires Valid()
      modifies bytes, bytes.arr
      ensures Valid() && Files() == old(Files())
      ensures r.Err? <==> old(bytes.end) == BYTES_MAX
      ensures r.Ok? ==> Bytes() == old(Bytes()) + [b] && bytes.end == old(bytes.end) + 1
      ensures r.Err? ==> r.error == BufferFull && Bytes() == old(Bytes()) && bytes.end == old(bytes.end)
    {
      r := bytes.PushBack(b);
    }

    method PushBackFile(f: SysFd) returns (r: Result<(), Error>)
      requires Valid()
      modifies files, files.arr
      ensures Valid() && Bytes() == old(Bytes())
      ensures r.Err? <==> old(files.end) == FILES_MAX
      ensures r.Ok? ==> Files() == old(Files()) + [f] && files.end == old(files.end) + 1
      ensures r.Err? ==> r.error == BufferFull && Files() == old(Files()) && files.end == old(files.end)
    {
      r := files.PushBack(f);
    }

    /** Removes and returns the first byte, or UnexpectedEnd with nothing removed. */
    method PopFrontByte() returns (r: Result<u8, Error>)
      requires Valid()
      modifies bytes
      ensures Valid() && Files() == old(Files()) && bytes.end == old(bytes.end)
      ensures r.Err? <==> old(Bytes()) == []
      ensures r.Err? ==> r.error == UnexpectedEnd && Bytes() == old(Bytes())
      ensures r.Ok? ==> old(Bytes()) == [r.value] + Bytes()
    {
      var front := bytes.Front(1);
      if front.Err? {
        return Err(front.error);
      }
      var b := front.value[0];
      bytes.PopFront(1);
      r := Ok(b);
    }

    /** Removes and returns the first file, or UnexpectedEnd with nothing removed. */
    method PopFrontFile() returns (r: Result<SysFd, Error>)
      requires Valid()
      modifies files
      ensures Valid() && Bytes() == old(Bytes()) && files.end == old(files.end)
      ensures r.Err? <==> old(Files()) == []
      ensures r.Err? ==> r.error == UnexpectedEnd && Files() == old(Files())
      ensures r.Ok? ==> old(Files()) == [r.value] + Files()
    {
      var front := files.Front(1);
      if front.Err? {
        return Err(front.error);
      }
      var f := front.value[0];
      files.PopFront(1);
      r := Ok(f);
    }

    /** Removes and returns the first `len` bytes, or UnexpectedEnd with nothing removed. */
    method PopFrontBytes(len: nat) returns (r: Result<seq<u8>, Error>)
      requires Valid()
      modifies bytes
      ensures Valid() && Files() == old(Files()) && bytes.end == old(bytes.end)
      ensures r.Err? <==> |old(Bytes())| < len
      ensures r.Err? ==> r.error == UnexpectedEnd && Bytes() == old(Bytes())
      ensures r.Ok? ==> old(Bytes()) == r.value + Bytes() && |r.value| == len
    {
      var front := bytes.Front(len);
      if front.Err? {
        return Err(front.error);
      }
      bytes.PopFront(len);
      r := Ok(front.value);
    }
  }
}
