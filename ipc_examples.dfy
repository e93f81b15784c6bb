/**
 * The message types of the protocol as codec shapes, and the byte vectors of
 * the protocol's own test cases.
 */
module IpcExamples {
  import opened Wrappers
  import opened Ints
  import opened IpcBuffer
  import opened IpcCodec
  import opened IpcTransfer

  /** `Errno(i32)`, a newtype struct, is written as its field. */
  const ErrnoTy: Ty := TInt(I32)
  /** `VPid(u32)`. */
  const VPidTy: Ty := TInt(U32)
  /** `VString(VPtr(usize))`: usize is written as u64. */
  const VStringTy: Ty := TInt(U64)
  /** `VFile { inode: u64 }`. */
  const VFileTy: Ty := TTuple([TInt(U64)])
  /** `ProcessHandle { mem: SysFd, maps: SysFd }`. */
  const ProcessHandleTy: Ty := TTuple([TSysFd, TSysFd])
  /** `FileStat {}` has no fields. */
  const FileStatTy: Ty := TTuple([])

  /** `Result<T, E>` is an enum with `Ok` at index 0 and `Err` at index 1. */
  function ResultTy(ok: Ty, err: Ty): Ty { TEnum([ok, err]) }

  const ToTaskTy: Ty := TEnum([
    ProcessHandleTy,
    ResultTy(TTuple([VFileTy, TSysFd]), ErrnoTy),
    ResultTy(TTuple([VFileTy, FileStatTy]), ErrnoTy),
    ResultTy(TInt(U64), ErrnoTy),
    ResultTy(TUnit, ErrnoTy)
  ])

  /** `LogLevel`: six unit variants. */
  const LogLevelTy: Ty := TEnum([TUnit, TUnit, TUnit, TUnit, TUnit, TUnit])
  const TracerSettingsTy: Ty := TTuple([LogLevelTy, TBool])

  const MessageToSandTy: Ty := TEnum([TTuple([VPidTy, ToTaskTy]), TTuple([TSysFd, TracerSettingsTy])])

  /** The first three `FromTask` variants: `OpenProcess(SysPid)`, `FileAccess` and `FileOpen`. */
  const FromTaskTy: Ty := TEnum([
    TInt(U32),
    TTuple([TOption(VFileTy), VStringTy, TInt(I32)]),
    TTuple([TOption(VFileTy), VStringTy, TInt(I32), TInt(I32)])
  ])

  const MessageFromSandTy: Ty := TEnum([TTuple([VPidTy, FromTaskTy])])

  /** A two-field tuple of well-formed values is well formed. */
  function Pair(a: Value, b: Value): (v: Value)
    requires WellFormed(a) && WellFormed(b)
    ensures v.Tuple? && v.items == [a, b] && WellFormed(v)
  {
    assert [a, b][1..] == [b] && [b][1..] == [];
    assert WellFormedAll([b]);
    assert WellFormedAll([a, b]);
    Tuple([a, b])
  }

  lemma PairHasType(a: Value, b: Value, ta: Ty, tb: Ty)
    requires WellFormed(a) && WellFormed(b) && HasType(a, ta) && HasType(b, tb)
    ensures HasType(Pair(a, b), TTuple([ta, tb]))
  {
    assert [a, b][1..] == [b] && [ta, tb][1..] == [tb];
    assert HaveTypes([b], [tb]);
  }

  function VFile(inode: u64): (v: Value)
    ensures WellFormed(v) && HasType(v, VFileTy)
  {
    assert [Int(U64, inode)][1..] == [];
    assert WellFormedAll([Int(U64, inode)]);
    assert HaveTypes([Int(U64, inode)], [TInt(U64)]);
    Tuple([Int(U64, inode)])
  }

  /** `MessageToSand::Task { task, op: ToTask::FileReply(reply) }`. */
  function FileReply(task: u32, reply: Value): (v: Value)
    requires WellFormed(reply)
    ensures WellFormed(v)
  {
    Variant(0, Pair(Int(U32, task), Variant(1, reply)))
  }

  /** `Ok((VFile { inode }, SysFd(fd)))`. */
  function FileOk(inode: u64, fd: u32): (v: Value)
    ensures WellFormed(v)
  {
    Variant(0, Pair(VFile(inode), Fd(fd)))
  }

  function FileErr(errno: i32): Value { Variant(1, Int(I32, errno)) }

  /** `MessageToSand::Task { task, op: ToTask::OpenProcessReply(ProcessHandle { mem, maps }) }`. */
  function OpenProcessReply(task: u32, mem: u32, maps: u32): (v: Value)
    ensures WellFormed(v)
  {
    Variant(0, Pair(Int(U32, task), Variant(0, Pair(Fd(mem), Fd(maps)))))
  }

  /** An integer goes out as the little-endian bytes of its unsigned form, with no files. */
  lemma IntVector(k: IntKind, n: int, u: nat, bs: seq<u8>)
    requires k.Holds(n) && u == ToUnsigned(n, k.Width()) && LeBytes(u, k.Width().Bytes()) == bs
    ensures EncBytes(Int(k, n)) == bs && EncFiles(Int(k, n)) == []
  {
    LeafOutput(Int(k, n));
  }

  lemma U32Vector()
    ensures EncBytes(Int(U32, 0x12345678)) == [0x78, 0x56, 0x34, 0x12]
  {
    assert LeBytes(0x12, 1) == [0x12];
    assert LeBytes(0x1234, 2) == [0x34, 0x12];
    assert LeBytes(0x123456, 3) == [0x56, 0x34, 0x12];
    assert LeBytes(0x12345678, 4) == [0x78, 0x56, 0x34, 0x12];
    IntVector(U32, 0x12345678, 0x12345678, [0x78, 0x56, 0x34, 0x12]);
  }

  lemma I32Vectors()
    ensures EncBytes(Int(I32, 0x7fffffff)) == [0xff, 0xff, 0xff, 0x7f]
    ensures EncBytes(Int(I32, -1)) == [0xff, 0xff, 0xff, 0xff]
    ensures EncBytes(Int(I32, -2)) == [0xfe, 0xff, 0xff, 0xff]
  {
    assert LeBytes(0xff, 1) == [0xff];
    assert LeBytes(0xffff, 2) == [0xff, 0xff];
    assert LeBytes(0xffffff, 3) == [0xff, 0xff, 0xff];
    assert LeBytes(0x7f, 1) == [0x7f];
    assert LeBytes(0x7fff, 2) == [0xff, 0x7f];
    assert LeBytes(0x7fffff, 3) == [0xff, 0xff, 0x7f];
    IntVector(I32, 0x7fffffff, 0x7fffffff, [0xff, 0xff, 0xff, 0x7f]);
    IntVector(I32, -1, 0xffffffff, [0xff, 0xff, 0xff, 0xff]);
    IntVector(I32, -2, 0xfffffffe, [0xfe, 0xff, 0xff, 0xff]);
  }

  lemma NarrowVectors()
    ensures EncBytes(Int(I8, -1)) == [0xff]
    ensures EncBytes(Int(I16, -1)) == [0xff, 0xff]
    ensures EncBytes(Int(U8, 0x42)) == [0x42]
  {
    assert LeBytes(0xff, 1) == [0xff];
    assert LeBytes(0xffff, 2) == [0xff, 0xff];
    IntVector(I8, -1, 0xff, [0xff]);
    IntVector(I16, -1, 0xffff, [0xff, 0xff]);
    IntVector(U8, 0x42, 0x42, [0x42]);
  }

  lemma I64Vector()
    ensures EncBytes(Int(I64, -1)) == [0xff, 0xff, 0xff, 0xff, 0xff, 0xff, 0xff, 0xff]
  {
    assert LeBytes(0xff, 1) == [0xff];
    assert LeBytes(0xffff, 2) == [0xff, 0xff];
    assert LeBytes(0xffffff, 3) == [0xff, 0xff, 0xff];
    assert LeBytes(0xffffffff, 4) == [0xff, 0xff, 0xff, 0xff];
    assert LeBytes(0xff_ffffffff, 5) == [0xff, 0xff, 0xff, 0xff, 0xff];
    assert LeBytes(0xffff_ffffffff, 6) == [0xff, 0xff, 0xff, 0xff, 0xff, 0xff];
    assert LeBytes(0xffffff_ffffffff, 7) == [0xff, 0xff, 0xff, 0xff, 0xff, 0xff, 0xff];
    IntVector(I64, -1, 0xffffffff_ffffffff, [0xff, 0xff, 0xff, 0xff, 0xff, 0xff, 0xff, 0xff]);
  }

  /** `fd_err`: `Err(Errno(-2))` is the variant index 1 and then the errno. */
  lemma FdErrVector()
    ensures EncBytes(FileErr(-2)) == [1, 0xfe, 0xff, 0xff, 0xff] && EncFiles(FileErr(-2)) == []
  {
    I32Vectors();
    FileErrOutput(-2);
    assert [1] + [0xfe, 0xff, 0xff, 0xff] == [1, 0xfe, 0xff, 0xff, 0xff];
  }

  /** `Err(Errno(e))` is the variant index 1 and then the errno's bytes, with no files. */
  lemma FileErrOutput(e: i32)
    ensures EncBytes(FileErr(e)) == [1] + EncBytes(Int(I32, e)) && EncFiles(FileErr(e)) == []
  {
    LeafOutput(Int(I32, e));
    TaggedValueOutput(FileErr(e));
  }

  lemma FdErrDecodes()
    ensures Decode(ResultTy(TSysFd, ErrnoTy), [1, 0xfe, 0xff, 0xff, 0xff], []) == Ok(Decoded(FileErr(-2), [], []))
  {
    var v, ty := FileErr(-2), ResultTy(TSysFd, ErrnoTy);
    FdErrVector();
    DecodeEncode(v, ty, [], []);
    assert EncBytes(v) + [] == [1, 0xfe, 0xff, 0xff, 0xff];
    assert EncFiles(v) + [] == [];
  }

  /** `fd_ok`: `Ok(SysFd(123))` is the byte 0 and the file. */
  lemma FdOkVector()
    ensures EncBytes(Variant(0, Fd(123))) == [0] && EncFiles(Variant(0, Fd(123))) == [SysFd(123)]
    ensures Decode(ResultTy(TSysFd, ErrnoTy), [0], [SysFd(123)]) == Ok(Decoded(Variant(0, Fd(123)), [], []))
  {
    LeafOutput(Fd(123));
    TaggedValueOutput(Variant(0, Fd(123)));
    DecodeEncode(Variant(0, Fd(123)), ResultTy(TSysFd, ErrnoTy), [], []);
    assert [0] + [] == [0] && [SysFd(123)] + [] == [SysFd(123)];
  }

  /** `options`: the four values written one after the other. */
  lemma OptionsVector()
    ensures EncBytes(SomeV(Bool(false))) + EncBytes(SomeV(Int(U8, 42))) + EncBytes(NoneV) + EncBytes(NoneV)
         == [1, 0, 1, 42, 0, 0]
  {
    LeafOutput(Bool(false));
    LeafOutput(NoneV);
    IntVector(U8, 42, 42, [42]);
    TaggedValueOutput(SomeV(Bool(false)));
    TaggedValueOutput(SomeV(Int(U8, 42)));
  }

  /** A bool byte other than 0 or 1 is refused. */
  lemma BoolInvalidVector()
    ensures Decode(TBool, [2], []) == Err(InvalidValue)
  {
  }

  /** A pair writes its first field, then its second. */
  lemma PairOutput(a: Value, b: Value)
    requires WellFormed(a) && WellFormed(b) && Encode(a).err.None? && Encode(b).err.None?
    ensures Encode(Pair(a, b)).err.None?
    ensures EncBytes(Pair(a, b)) == EncBytes(a) + EncBytes(b)
    ensures EncFiles(Pair(a, b)) == EncFiles(a) + EncFiles(b)
  {
    assert BytesOf([]) == [] && FilesOf([]) == [];
    TupleOutput(b, []);
    assert [b] + [] == [b];
    TupleOutput(a, [b]);
    assert [a] + [b] == [a, b];
  }

  /** The reply to `OpenProcess`: the two tags and the task id as bytes, the two handles as files. */
  lemma OpenProcessReplyOutput(task: u32, mem: u32, maps: u32)
    ensures Encode(OpenProcessReply(task, mem, maps)).err.None?
    ensures EncBytes(OpenProcessReply(task, mem, maps)) == [0] + IntBytes(U32, task) + [0]
    ensures EncFiles(OpenProcessReply(task, mem, maps)) == [SysFd(mem), SysFd(maps)]
  {
    var id := Int(U32, task);
    LeafOutput(id);
    LeafOutput(Fd(mem));
    LeafOutput(Fd(maps));
    PairOutput(Fd(mem), Fd(maps));
    var handle := Variant(0, Pair(Fd(mem), Fd(maps)));
    TaggedValueOutput(handle);
    assert EncBytes(handle) == [0] && EncFiles(handle) == [SysFd(mem), SysFd(maps)];
    PairOutput(id, handle);
    TaggedValueOutput(OpenProcessReply(task, mem, maps));
  }

  /** The task id of the reply vector, as little-endian bytes. */
  lemma TaskIdBytes()
    ensures IntBytes(U32, 0x66669999) == [0x99, 0x99, 0x66, 0x66]
  {
    assert LeBytes(0x66, 1) == [0x66];
    assert LeBytes(0x6666, 2) == [0x66, 0x66];
    assert LeBytes(0x666699, 3) == [0x99, 0x66, 0x66];
  }

  /** `process_open_reply_1`. */
  lemma ProcessOpenReplyVector(task: u32, mem: u32, maps: u32)
    requires task == 0x66669999 && mem == 10 && maps == 20
    ensures EncBytes(OpenProcessReply(task, mem, maps)) == [0x00, 0x99, 0x99, 0x66, 0x66, 0]
    ensures EncFiles(OpenProcessReply(task, mem, maps)) == [SysFd(10), SysFd(20)]
  {
    assert [0] + [0x99, 0x99, 0x66, 0x66] + [0] == [0x00, 0x99, 0x99, 0x66, 0x66, 0];
    TaskIdBytes();
    OpenProcessReplyOutput(task, mem, maps);
  }

  /** The body of `MessageToSand::Task` needs four bytes of task id and then the tag of `op`. */
  lemma TaskBodyNeedsMore(bs: seq<u8>, fs: seq<SysFd>)
    requires |bs| <= 4
    ensures Decode(TTuple([VPidTy, ToTaskTy]), bs, fs) == Err(UnexpectedEnd)
  {
    var ts := [VPidTy, ToTaskTy];
    assert ts[0] == TInt(U32) && ts[1..] == [ToTaskTy];
    if |bs| < 4 {
      assert Decode(TInt(U32), bs, fs) == Err(UnexpectedEnd);
      assert DecodeAll(ts, bs, fs) == Err(UnexpectedEnd);
    } else {
      assert bs[4..] == [];
      var d := Decode(TInt(U32), bs, fs);
      assert d.Ok? && d.value.bytes == [] && d.value.files == fs;
      assert Decode(ToTaskTy, [], fs) == Err(UnexpectedEnd);
      assert [ToTaskTy][0] == ToTaskTy;
      assert DecodeAll([ToTaskTy], [], fs) == Err(UnexpectedEnd);
      assert DecodeAll(ts, bs, fs) == Err(UnexpectedEnd);
    }
  }

  /** A message that stops inside the task body is incomplete. */
  lemma TaskNeedsMore(bs: seq<u8>, fs: seq<SysFd>)
    requires |bs| <= 4
    ensures Decode(MessageToSandTy, [0x00] + bs, fs) == Err(UnexpectedEnd)
  {
    DecodeTagged(MessageToSandTy, 0, bs, fs);
    TaskBodyNeedsMore(bs, fs);
  }

  /** `incomplete_message`: every prefix of the message decodes to `UnexpectedEnd`. */
  lemma IncompleteMessageDecodes()
    ensures Decode(MessageToSandTy, [], []) == Err(UnexpectedEnd)
    ensures Decode(MessageToSandTy, [0x00], []) == Err(UnexpectedEnd)
    ensures Decode(MessageToSandTy, [0x00, 0x99], [SysFd(10)]) == Err(UnexpectedEnd)
    ensures Decode(MessageToSandTy, [0x00, 0x99], [SysFd(10), SysFd(20)]) == Err(UnexpectedEnd)
    ensures Decode(MessageToSandTy, [0x00, 0x99, 0x99, 0x66, 0x66], [SysFd(10), SysFd(20)]) == Err(UnexpectedEnd)
  {
    TaskNeedsMore([], []);
    assert [0x00] + [] == [0x00];
    TaskNeedsMore([0x99], [SysFd(10)]);
    TaskNeedsMore([0x99], [SysFd(10), SysFd(20)]);
    assert [0x00] + [0x99] == [0x00, 0x99];
    TaskNeedsMore([0x99, 0x99, 0x66, 0x66], [SysFd(10), SysFd(20)]);
    assert [0x00] + [0x99, 0x99, 0x66, 0x66] == [0x00, 0x99, 0x99, 0x66, 0x66];
  }

  /** The replies a task can receive are all readable. */
  lemma ToTaskDecodable()
    ensures Decodable(ToTaskTy)
  {
    AllDecodableEach([]);
    AllDecodableEach([TInt(U64)]);
    AllDecodableEach([TSysFd, TSysFd]);
    AllDecodableEach([VFileTy, TSysFd]);
    AllDecodableEach([VFileTy, FileStatTy]);
    AllDecodableEach([TTuple([VFileTy, TSysFd]), ErrnoTy]);
    AllDecodableEach([TTuple([VFileTy, FileStatTy]), ErrnoTy]);
    AllDecodableEach([TInt(U64), ErrnoTy]);
    AllDecodableEach([TUnit, ErrnoTy]);
    AllDecodableEach(ToTaskTy.variants);
  }

  /** The requests a task can send are all readable. */
  lemma FromTaskDecodable()
    ensures Decodable(FromTaskTy)
  {
    AllDecodableEach([TInt(U64)]);
    AllDecodableEach([TOption(VFileTy), VStringTy, TInt(I32)]);
    AllDecodableEach([TOption(VFileTy), VStringTy, TInt(I32), TInt(I32)]);
    AllDecodableEach(FromTaskTy.variants);
  }

  /** Every message type is one the deserializer can read. */
  lemma MessageTypesDecodable()
    ensures Decodable(MessageToSandTy) && Decodable(MessageFromSandTy)
  {
    ToSandDecodable();
    FromSandDecodable();
  }

  lemma ToSandDecodable()
    ensures Decodable(MessageToSandTy)
  {
    ToTaskDecodable();
    AllDecodableEach(LogLevelTy.variants);
    AllDecodableEach([LogLevelTy, TBool]);
    AllDecodableEach([VPidTy, ToTaskTy]);
    AllDecodableEach([TSysFd, TracerSettingsTy]);
    AllDecodableEach(MessageToSandTy.variants);
  }

  lemma FromSandDecodable()
    ensures Decodable(MessageFromSandTy)
  {
    FromTaskDecodable();
    AllDecodableEach([VPidTy, FromTaskTy]);
    AllDecodableEach(MessageFromSandTy.variants);
  }

  /** The reply to `OpenProcess` decodes from its bytes and files, leaving what follows. */
  lemma OpenProcessReplyDecodes(task: u32, mem: u32, maps: u32)
    ensures Decode(MessageToSandTy, [0] + IntBytes(U32, task) + [0], [SysFd(mem), SysFd(maps)])
         == Ok(Decoded(OpenProcessReply(task, mem, maps), [], []))
  {
    var v := OpenProcessReply(task, mem, maps);
    OpenProcessReplyOutput(task, mem, maps);
    MessageTypesDecodable();
    PairHasType(Fd(mem), Fd(maps), TSysFd, TSysFd);
    assert HasType(Variant(0, Pair(Fd(mem), Fd(maps))), ToTaskTy);
    PairHasType(Int(U32, task), Variant(0, Pair(Fd(mem), Fd(maps))), VPidTy, ToTaskTy);
    assert HasType(v, MessageToSandTy);
    DecodeEncode(v, MessageToSandTy, [], []);
    assert EncBytes(v) + [] == EncBytes(v) && EncFiles(v) + [] == EncFiles(v);
  }

  /** The last step of `incomplete_message`: with the final tag byte the message decodes and nothing is left. */
  lemma CompleteMessageDecodes(task: u32, mem: u32, maps: u32)
    requires task == 0x66669999 && mem == 10 && maps == 20
    ensures Decode(MessageToSandTy, [0x00, 0x99, 0x99, 0x66, 0x66, 0], [SysFd(10), SysFd(20)])
         == Ok(Decoded(OpenProcessReply(task, mem, maps), [], []))
  {
    assert [0] + [0x99, 0x99, 0x66, 0x66] + [0] == [0x00, 0x99, 0x99, 0x66, 0x66, 0];
    TaskIdBytes();
    OpenProcessReplyDecodes(task, mem, maps);
  }

  /** `FileReply(reply)` for a task: the two tags and the task id, then the reply. */
  lemma FileReplyOutput(task: u32, reply: Value)
    requires WellFormed(reply) && Encode(reply).err.None?
    ensures Encode(FileReply(task, reply)).err.None?
    ensures EncBytes(FileReply(task, reply)) == [0] + IntBytes(U32, task) + [1] + EncBytes(reply)
    ensures EncFiles(FileReply(task, reply)) == EncFiles(reply)
  {
    TaggedValueOutput(Variant(1, reply));
    LeafOutput(Int(U32, task));
    PairOutput(Int(U32, task), Variant(1, reply));
    TaggedValueOutput(FileReply(task, reply));
  }

  /** `Ok((VFile { inode }, SysFd(fd)))`: the `Ok` tag and the inode, with the file aside. */
  lemma FileOkOutput(inode: u64, fd: u32)
    ensures Encode(FileOk(inode, fd)).err.None?
    ensures EncBytes(FileOk(inode, fd)) == [0] + IntBytes(U64, inode)
    ensures EncFiles(FileOk(inode, fd)) == [SysFd(fd)]
  {
    var vf := VFile(inode);
    LeafOutput(Int(U64, inode));
    TupleOutput(Int(U64, inode), []);
    assert [Int(U64, inode)] + [] == [Int(U64, inode)];
    assert EncBytes(vf) == IntBytes(U64, inode) && EncFiles(vf) == [];
    LeafOutput(Fd(fd));
    PairOutput(vf, Fd(fd));
    TaggedValueOutput(FileOk(inode, fd));
  }

  /** A successful file reply is 15 bytes and one file. */
  lemma FileReplyOkSize(task: u32, inode: u64, fd: u32)
    ensures Encode(FileReply(task, FileOk(inode, fd))).err.None?
    ensures |EncBytes(FileReply(task, FileOk(inode, fd)))| == 15
    ensures EncFiles(FileReply(task, FileOk(inode, fd))) == [SysFd(fd)]
  {
    FileOkOutput(inode, fd);
    FileReplyOutput(task, FileOk(inode, fd));
  }

  /** A failed file reply is 11 bytes and no file. */
  lemma FileReplyErrSize(task: u32, errno: i32)
    ensures Encode(FileReply(task, FileErr(errno))).err.None?
    ensures |EncBytes(FileReply(task, FileErr(errno)))| == 11
    ensures EncFiles(FileReply(task, FileErr(errno))) == []
  {
    LeafOutput(Int(I32, errno));
    TaggedValueOutput(FileErr(errno));
    FileReplyOutput(task, FileErr(errno));
  }

  /**
   * `messages`: three successful replies and one failed one, written in that
   * order, fill 56 bytes and three files, whatever their ids, inodes and errno.
   */
  lemma MessagesVector(t1: u32, i1: u64, f1: u32, t2: u32, e2: i32, t3: u32, i3: u64, f3: u32,
                       t4: u32, i4: u64, f4: u32)
    ensures var m1, m2, m3, m4 := FileReply(t1, FileOk(i1, f1)), FileReply(t2, FileErr(e2)),
                                  FileReply(t3, FileOk(i3, f3)), FileReply(t4, FileOk(i4, f4));
      |EncBytes(m1) + EncBytes(m2) + EncBytes(m3) + EncBytes(m4)| == 56 &&
      EncFiles(m1) + EncFiles(m2) + EncFiles(m3) + EncFiles(m4) == [SysFd(f1), SysFd(f3), SysFd(f4)]
  {
    FileReplyOkSize(t1, i1, f1);
    FileReplyErrSize(t2, e2);
    FileReplyOkSize(t3, i3, f3);
    FileReplyOkSize(t4, i4, f4);
  }

  /**
   * The tail of `bools`: a byte that is not a bool is refused, and the
   * refused byte stays queued for the next reader.
   */
  method BoolsRewind() returns (r: Result<Value, Error>, left: seq<u8>)
    ensures r == Err(InvalidValue) && left == [2]
  {
    var buf := new IPCBuffer();
    var pushed := buf.PushBackByte(2);
    assert buf.Bytes() == [2];
    r := PopFront(buf, TBool);
    left := buf.Bytes();
  }

}
