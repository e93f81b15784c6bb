# bandsocks core, modelled in Dafny

bandsocks runs Linux containers without root. A sandbox process traces the contained programs. It talks to the host over an IPC channel carrying bytes and file descriptors. The host keeps an in-memory virtual filesystem built from the image's tar layers, and it parses Docker image references.

This project models the deterministic core of the system and proves what that code promises:

- **IPC wire codec** (`IpcBuffer`, `IpcCodec`, `IpcTransfer`, `IpcExamples`). A fixed-capacity buffer of two queues: 4096 bytes and 128 files.
  - The queues are `class`es over arrays, with in-place `push_back`, `extend`, `pop_front`, `begin_fill` and `commit_fill`.
  - The untagged little-endian encoding is a pure function over a value algebra. It covers integers, bool, unit, options, variants, tuples, structs and `SysFd`s.
  - The decoder is proved to invert it (`decode(encode(v)) == v`).
  - The serializer and deserializer are methods that write into and pop from the buffer. They are proved against those functions, including the rewind of a failed `pop_front`.
  - The byte vectors of the protocol tests are proved as lemmas.
- **Registers** (`ProtocolAbi`, `ProtocolTypes`): `Syscall::from_regs` and the `*_to_regs` writers over a `UserRegs` class, with the round trips between them. The pointer, pid and fd newtypes are in `ProtocolTypes`.
- **Address arithmetic** (`SandAbi`, `Page`, `Maps`, `KernelMem`): page masks and `VPage` rounding, `MappedPages` and `Segment` ranges, protection flags, overlap, and the userspace-area test.
- **Loader bookkeeping** (`Layout`, `Stack`, `ProcessTables`, `Bpf`, `SyscallResults`). Small state machines over fields and fixed arrays:
  - the memory layout's widening bounds and `brk` randomisation;
  - the stack builder's bottom pointer and stored-vector count;
  - the 1024-slot process table;
  - the BPF program buffer and its jump arithmetic;
  - the conversions into syscall results.
- **Byte parser** (`Parser`): `ByteReader` over a byte sequence of at most its capacity (the source is generic over the buffer length), with `byte`, `space(s)`, `eof` and the decimal and hexadecimal number loops. These are proved against reference functions. The decimal loop's `value * 10 + digit` is taken modulo 2^64, as a release build computes it; only the `wrapping_sub` in front of it wraps in the source itself.
- **Virtual filesystem** (`VfsNodes`, `VfsResolve`, `VfsWrite`, `VfsFilesystem`). The inode vector and directory maps, first as values:
  - bounded resolution of path segments and symbolic links;
  - link counting;
  - create-on-write of parent directories.

  Then the same operations as `Filesystem`, `Limits` and `VFSWriter` classes, whose methods mutate fields and are proved equal to those functions.
- **Image references** (`Chars`, `ImageErrors`, `ImageTag`, `ImageDigest`, `ImageRepository`, `ImageRegistry`, `ImageVersions`, `ImageNames`, `RegistryDefaults`). Each regex of the source is a hand-written predicate. Parsing, splitting into parts, re-joining and default-registry resolution are proved correct against those predicates.
- **Storage and tar** (`Numerals`, `StorageKeys`, `MappedFiles`, `TarEntries`): storage-key ranges and paths, `MapRef` windows, tar block padding, the entry offset advance, and the per-entry metadata dispatch into the filesystem writer.
- **Container builder** (`EnvVars`, `ContainerBuilders`): environment-list editing (`split`, `join`, `get`, `set`, `remove`, with `set` and `remove` as in-place loops), argument collection, and argv and `PATH` assembly.
- **Shared vocabulary**: `Wrappers` holds Option and Result, and `Ints` the fixed-width integer types.

Rust panics (`assert!`, `unwrap` on a value that cannot fail) become `requires` clauses. Errors the source returns are modelled as `Result` values. Integer widths are explicit subset types, and wrap-around is written out where the source wraps.

## Model

| member | source | states |
|---|---|---|
| IpcBuffer.Queue.constructor | protocol/src/buffer.rs:35-39 | a new queue of the given capacity holds nothing and starts at index 0 |
| IpcBuffer.Queue.IsEmpty | protocol/src/buffer.rs:54-56 | true exactly when no unread item is left |
| IpcBuffer.Queue.PushBack | protocol/src/buffer.rs:58-66 | BufferFull exactly when the end is at the capacity, with nothing changed; otherwise the item is appended to the unread items and the end moves by one |
| IpcBuffer.Queue.Extend | protocol/src/buffer.rs:68-77 | all or nothing: BufferFull with nothing changed when the items do not fit, otherwise the items are appended in order |
| IpcBuffer.Queue.PopFront | protocol/src/buffer.rs:79-82 | the caller must stay within the unread items (the assertion); the first `count` unread items are dropped |
| IpcBuffer.Queue.BeginFill | protocol/src/buffer.rs:88-95 | the unread items move to index 0 unchanged and the free tail returned is everything after them |
| IpcBuffer.Queue.CommitFill | protocol/src/buffer.rs:97-101 | the caller must stay within the capacity (the assertion); the filled items join the unread ones |
| IpcBuffer.Queue.Front | protocol/src/buffer.rs:103-110 | a prefix of the unread items of exactly `len`, or UnexpectedEnd when fewer are there; nothing changes |
| IpcBuffer.IPCBuffer.constructor | protocol/src/buffer.rs:113-116 | both queues start empty, with capacities 4096 bytes and 128 files |
| IpcBuffer.IPCBuffer.IsEmpty | protocol/src/buffer.rs:137-139 | true exactly when both the byte queue and the file queue are empty |
| IpcBuffer.IPCBuffer.ExtendBytes | protocol/src/buffer.rs:159-161 | the bytes are appended, or BufferFull with nothing changed; the files are untouched |
| IpcBuffer.IPCBuffer.PushBackByte | protocol/src/buffer.rs:163-165 | one byte appended unless the byte queue is at 4096, which is BufferFull; the files are untouched |
| IpcBuffer.IPCBuffer.PushBackFile | protocol/src/buffer.rs:167-169 | one file appended unless the file queue is at 128, which is BufferFull; the bytes are untouched |
| IpcBuffer.IPCBuffer.PopFrontByte | protocol/src/buffer.rs:187-191 | the first unread byte is removed and returned, or UnexpectedEnd on an empty byte queue with nothing changed |
| IpcBuffer.IPCBuffer.PopFrontFile | protocol/src/buffer.rs:193-197 | the first unread file is removed and returned, or UnexpectedEnd on an empty file queue with nothing changed |
| IpcBuffer.IPCBuffer.PopFrontBytes | protocol/src/buffer.rs:171-181 | `front_bytes` then `pop_front_bytes`: exactly `len` leading bytes are removed and returned, or UnexpectedEnd with nothing changed |
| IpcCodec.AllDecodableEach | protocol/src/de.rs:228-235 | a struct's field types are readable when each field type is |
| IpcCodec.LeBytes | protocol/src/ser.rs:42-49 | `to_le_bytes` yields exactly as many bytes as the integer's width |
| IpcCodec.FromLe | protocol/src/de.rs:46-55 | `from_le_bytes` of `n` bytes is below 256 to the power `n` |
| IpcCodec.FromLeBytes | protocol/src/de.rs:46-55 | reading back the little-endian bytes of a value that fits gives the value |
| IpcCodec.IntBytes | protocol/src/ser.rs:83-95 | each integer kind is written as its native width in bytes (1, 2, 4 or 8) |
| IpcCodec.IntFromBytes | protocol/src/de.rs:111-124 | the integer read from a width's worth of bytes is a value of that kind |
| IpcCodec.IntRoundTrip | protocol/src/de.rs:111-124 | decoding the bytes an integer of any kind and sign encodes to gives the integer back |
| IpcCodec.OutputOfAppend | protocol/src/ser.rs:225-320 | fields written one after another put their bytes and their files in order into the two queues |
| IpcCodec.OutputOfOne | protocol/src/ser.rs:42-49 | one write of bytes goes to the byte queue only, one file to the file queue only |
| IpcCodec.EncodeSucceedsIff | protocol/src/ser.rs:66-151 | serialization fails exactly when the value holds a char, string, byte slice or float, or a variant index of 0x100 or more; a map serializes exactly when each of its keys and values does |
| IpcCodec.EncodeEntriesSucceedsIff | protocol/src/ser.rs:284-302 | a map's entries serialize exactly when each entry does |
| IpcCodec.EncodeEntrySucceedsIff | protocol/src/ser.rs:284-302 | one map entry serializes exactly when its key and its value do |
| IpcCodec.MapIsInterleaved | protocol/src/ser.rs:192-195 | a map is written with no length prefix, exactly as the sequence of its keys and values taken alternately |
| IpcCodec.EncodeAllSucceedsIff | protocol/src/ser.rs:225-320 | a compound value serializes exactly when each field does |
| IpcCodec.UnsupportedWritesNothing | protocol/src/ser.rs:66-81 | char, str, bytes, f32 and f64 fail with Unimplemented before anything is written |
| IpcCodec.Decode | protocol/src/de.rs:46-271 | the value read has the requested type and takes no more than there was; integers give UnexpectedEnd exactly when fewer than their width of bytes remain; bool, option and enum give UnexpectedEnd on no bytes; bool and option tags above 1 give InvalidValue; an enum index past the variants gives Deserialize; a SysFd fails exactly when the file queue is empty and reads no bytes; sequences, maps and the unimplemented kinds give Unimplemented |
| IpcCodec.DecodeAll | protocol/src/de.rs:162-195 | a tuple of `len` fields reads `len` values in order, each of its field's type |
| IpcCodec.AllDecodableAt | protocol/src/de.rs:262-271 | the payload type of each variant of a readable enum is readable |
| IpcCodec.LeafOutput | protocol/src/ser.rs:70-121 | integers write their little-endian bytes, bool one byte 0 or 1, unit nothing, None the byte 0, a SysFd one file and no bytes |
| IpcCodec.TupleOutput | protocol/src/ser.rs:240-266 | a tuple writes its first field and then the remaining fields, in declaration order |
| IpcCodec.TaggedValueOutput | protocol/src/ser.rs:102-106 | `Some(v)` writes the byte 1 then `v`; a variant writes its one-byte index then its payload |
| IpcCodec.TaggedOutput | protocol/src/ser.rs:127-139 | a tag byte goes in front of the payload's bytes and adds no file |
| IpcCodec.DecodeInt | protocol/src/de.rs:46-55 | an integer is read back from its own bytes, and what follows is left in place |
| IpcCodec.DecodeTagged | protocol/src/de.rs:134-140 | after the tag byte 1 an option reads its payload; after an index byte an enum reads that variant's payload |
| IpcCodec.DecodeLeaf | protocol/src/de.rs:111-144 | integers, bools, unit, None and SysFd decode back from what they encode to, leaving what follows |
| IpcCodec.DecodeEncode | protocol/src/de.rs:64-271 | decoding the encoding of any value gives the value back and leaves exactly what followed it in both queues |
| IpcCodec.DecodeEncodeSome | protocol/src/de.rs:134-140 | the round trip for `Some(v)` |
| IpcCodec.DecodeEncodeVariant | protocol/src/de.rs:262-271 | the round trip for an enum variant |
| IpcCodec.DecodeEncodeAll | protocol/src/de.rs:162-195 | the round trip for a tuple, struct or tuple struct, field by field |
| IpcTransfer.Accepted | protocol/src/buffer.rs:58-77 | the serializer's writes are taken in order until the first that does not fit, which fails with BufferFull |
| IpcTransfer.AcceptedWhenFits | protocol/src/buffer.rs:58-77 | every write is accepted when the whole output fits in the free space of both queues |
| IpcTransfer.AcceptedStep | protocol/src/buffer.rs:58-77 | a write that fits only advances its queue's end; one that does not fit stops the serializer |
| IpcTransfer.OutputOfPrefix | protocol/src/ser.rs:225-320 | the output after one more write is the output so far followed by that write |
| IpcTransfer.Write | protocol/src/buffer.rs:159-169 | one write goes through `extend_bytes` or `push_back_file`: appended to its queue, or BufferFull with both queues unchanged |
| IpcTransfer.AcceptedPrefix | protocol/src/buffer.rs:58-77 | write `i` is accepted exactly when the first `i` were and write `i` fits after them |
| IpcTransfer.WriteAll | protocol/src/ser.rs:225-320 | after the serializer's writes the queues hold their old contents followed by the output of the accepted prefix, and the error is BufferFull exactly when a write was refused |
| IpcTransfer.PushBack | protocol/src/buffer.rs:141-144 | `push_back` appends the accepted prefix of the encoding, and writes made before a failure stay; the result is BufferFull, the encoder's own error, or success |
| IpcTransfer.PushFits | protocol/src/buffer.rs:141-144 | a serializable message whose bytes and files fit is pushed whole and succeeds |
| IpcTransfer.ReadValue | protocol/src/de.rs:57-271 | the deserializer popping as it goes returns what the reference decoder returns and leaves in the queues exactly what the decoder leaves |
| IpcTransfer.AfterItemsAppend | protocol/src/de.rs:175-188 | prepending decoded items in two steps is prepending them at once |
| IpcTransfer.DecodeAllStep | protocol/src/de.rs:175-188 | the remaining fields decode as the next field followed by the rest |
| IpcTransfer.ReadTuple | protocol/src/de.rs:162-195 | the tuple access counts `len` down, reading one element per step, and agrees with DecodeAll |
| IpcTransfer.PopFront | protocol/src/buffer.rs:146-157 | `pop_front` agrees with the reference decoder, and on any error both queue ranges are restored, so a partial read consumes nothing |
| IpcExamples.Pair | protocol/src/messages.rs:5-9 | a two-field struct or tuple value of well-formed fields is well formed |
| IpcExamples.PairHasType | protocol/src/messages.rs:5-9 | a pair of typed fields has the two-field tuple type |
| IpcExamples.VFile | protocol/src/types.rs:22-31 | `VFile { inode }` is a one-field struct of type u64 |
| IpcExamples.FileReply | protocol/src/messages.rs:67-75 | `MessageToSand::Task { task, op: FileReply(reply) }` is a well-formed message value |
| IpcExamples.FileOk | protocol/src/messages.rs:67-75 | `Ok((VFile, SysFd))` is a well-formed reply |
| IpcExamples.OpenProcessReply | protocol/src/messages.rs:67-75 | `MessageToSand::Task { task, op: OpenProcessReply(ProcessHandle) }` is a well-formed message value |
| IpcExamples.IntVector | protocol/src/tests.rs:152-168 | an integer goes out as the little-endian bytes of its two's-complement form, with no files |
| IpcExamples.U32Vector | protocol/src/tests.rs:152-154 | 0x12345678 as u32 is 78 56 34 12 |
| IpcExamples.I32Vectors | protocol/src/tests.rs:158-160 | i32 0x7fffffff is ff ff ff 7f and -1 is four ff bytes |
| IpcExamples.NarrowVectors | protocol/src/tests.rs:155-165 | i8 -1 is ff, i16 -1 is ff ff, u8 0x42 is 42 |
| IpcExamples.I64Vector | protocol/src/tests.rs:166-168 | i64 -1 is eight ff bytes |
| IpcExamples.FdErrVector | protocol/src/tests.rs:172 | `Err(Errno(-2))` as `Result<SysFd, Errno>` is 01 fe ff ff ff and no files |
| IpcExamples.FdErrDecodes | protocol/src/tests.rs:172 | those five bytes decode back to `Err(Errno(-2))` and nothing is left |
| IpcExamples.FdOkVector | protocol/src/tests.rs:171 | `Ok(SysFd(123))` is the byte 0 and the file 123, and decodes back |
| IpcExamples.OptionsVector | protocol/src/tests.rs:24-37 | `Some(false)`, `Some(42u8)`, `None`, `None` write 1 0 1 42 0 0 |
| IpcExamples.BoolInvalidVector | protocol/src/tests.rs:19-21 | the byte 2 read as a bool is InvalidValue |
| IpcExamples.PairOutput | protocol/src/ser.rs:304-320 | a two-field struct writes its first field, then its second |
| IpcExamples.OpenProcessReplyOutput | protocol/src/messages.rs:5-9 | the reply to OpenProcess writes the two variant tags around the task id and the two handles as files |
| IpcExamples.ProcessOpenReplyVector | protocol/src/tests.rs:274-286 | `process_open_reply_1` is 00 99 99 66 66 00 with files 10 and 20 |
| IpcExamples.TaskBodyNeedsMore | protocol/src/tests.rs:76-103 | the body of a task message with at most four bytes is UnexpectedEnd |
| IpcExamples.TaskNeedsMore | protocol/src/tests.rs:76-103 | a task message with at most four bytes after its tag is UnexpectedEnd |
| IpcExamples.IncompleteMessageDecodes | protocol/src/tests.rs:76-103 | each truncated prefix of `incomplete_message` is UnexpectedEnd |
| IpcExamples.MessageTypesDecodable | protocol/src/messages.rs:3-20 | every part of `MessageToSand` and `MessageFromSand` is something the deserializer implements |
| IpcExamples.OpenProcessReplyDecodes | protocol/src/tests.rs:104-115 | the bytes and files of an OpenProcess reply decode back to it with nothing left |
| IpcExamples.CompleteMessageDecodes | protocol/src/tests.rs:104-115 | the complete message of `incomplete_message` decodes to the expected OpenProcessReply |
| IpcExamples.FileReplyOutput | protocol/src/tests.rs:249-273 | a file reply writes the task tag, the task id, the FileReply tag, then the result |
| IpcExamples.FileOkOutput | protocol/src/tests.rs:249-263 | `Ok((VFile, SysFd))` writes 0, the inode's eight bytes, and one file |
| IpcExamples.FileReplyOkSize | protocol/src/tests.rs:249-263 | a successful file reply is 15 bytes and one file |
| IpcExamples.FileReplyErrSize | protocol/src/tests.rs:264-273 | a failed file reply is 11 bytes and no file |
| IpcExamples.MessagesVector | protocol/src/tests.rs:39-74 | three successful replies and one failed one fill 56 bytes and 3 files, whatever their values |
| IpcExamples.BoolsRewind | protocol/src/tests.rs:19-21 | popping a bool from the byte 2 fails with InvalidValue and the byte stays queued |
| ProtocolAbi.UserRegs.constructor | protocol/src/abi.rs:103-108 | `UserRegs::default()` leaves every one of the 27 registers zero |
| ProtocolAbi.UserRegs.ArgRegs | protocol/src/abi.rs:64-71 | there are exactly six argument registers; their order (di, si, dx, r10, r8, r9) is the definition, through which `ArgsToRegs` and `ArgsRoundTrip` are stated |
| ProtocolAbi.Padded | protocol/src/abi.rs:76-82 | at most six arguments padded to exactly six: the given ones first, in order, then zeroes |
| ProtocolAbi.ArgsToRegs | protocol/src/abi.rs:75-83 | more than six arguments is the assertion (a precondition); each argument register holds its argument as unsigned, or 0 where none is given, and no other register changes |
| ProtocolAbi.NrToRegs | protocol/src/abi.rs:85-87 | ax holds the syscall number as unsigned; no other register changes |
| ProtocolAbi.RetToRegs | protocol/src/abi.rs:89-91 | ax holds the return value as unsigned; no other register changes |
| ProtocolAbi.RetFromRegs | protocol/src/abi.rs:93-95 | the return value read back is the one `from_regs` reports |
| ProtocolAbi.OrigNrToRegs | protocol/src/abi.rs:97-100 | orig_ax holds the syscall number to resume; no other register changes |
| ProtocolAbi.RegisterRoundTrip | protocol/src/abi.rs:89-95 | any signed 64-bit value survives the cast to an unsigned register and back |
| ProtocolAbi.RetRoundTrip | protocol/src/abi.rs:89-95 | `ret_from_regs` after `ret_to_regs` gives back the value written |
| ProtocolAbi.ArgsRoundTrip | protocol/src/abi.rs:58-83 | `from_regs` after `args_to_regs` gives back the arguments, zero-padded to six |
| ProtocolTypes.VPtr.Add | protocol/src/types.rs:76-78 | the new pointer lies exactly `count` bytes past the old one; an overflowing sum is excluded, as Rust's checked arithmetic would panic |
| SandAbi.PageOffset | sand/src/abi.rs:297-299 | the offset is below the page size, no more than the address, and what is left of the address after removing it is page-aligned |
| SandAbi.PageRoundDown | sand/src/abi.rs:301-303 | a page-aligned address at or below `addr`, less than a page below it |
| SandAbi.PageRoundUp | sand/src/abi.rs:305-311 | a page-aligned address at or above `addr`, less than a page above it, and `addr` itself when it is already aligned; the addition must not overflow |
| SandAbi.OffsetPlusRoundDown | sand/src/abi.rs:297-303 | the offset and the rounded-down address add back up to the address |
| SandAbi.RoundDownIsGreatest | sand/src/abi.rs:301-303 | every aligned address at or below `addr` is at or below `page_round_down(addr)`: the rounding is the greatest such address |
| SandAbi.RoundUpIsLeast | sand/src/abi.rs:305-311 | every aligned address at or above `addr` is at or above `page_round_up(addr)`: the rounding is the least such address |
| SandAbi.AlignedGap | sand/src/abi.rs:293-295 | two different multiples of the page size are at least a page apart |
| SandAbi.RoundUpIdempotent | sand/src/abi.rs:305-311 | rounding up an already rounded-up address changes nothing |
| SandAbi.RoundDownIdempotent | sand/src/abi.rs:301-303 | rounding down an already rounded-down address changes nothing |
| Page.PagesToBytes | sand/src/mem/page.rs:24-34 | `count << PAGE_SHIFT` is always page-aligned and equals `count * 4096` whenever that fits in 64 bits |
| Page.Null | sand/src/mem/page.rs:38-40 | the page at address 0, which is aligned |
| Page.Max | sand/src/mem/page.rs:42-44 | the last page of the address space, at 2^64 - 4096 |
| Page.Offset | sand/src/mem/page.rs:58-60 | the offset is below a page and is exactly what separates the pointer from its rounded-down page |
| Page.RoundDown | sand/src/mem/page.rs:79-81 | an aligned page whose first page-size bytes contain the pointer |
| Page.RoundUp | sand/src/mem/page.rs:71-77 | the pointer itself when aligned, otherwise the page after the one holding it; always aligned and less than a page above |
| Page.RoundOut | sand/src/mem/page.rs:83-85 | an aligned page range that contains the pointer range and overhangs it by less than a page at each end |
| Page.Parse | sand/src/mem/page.rs:87-93 | succeeds exactly for aligned pointers, and then the page is the pointer itself |
| Page.ParseRange | sand/src/mem/page.rs:95-97 | succeeds exactly when both ends are aligned, and then keeps both ends |
| Page.Add | sand/src/mem/page.rs:21-27 | the result stays aligned and is `count` pages higher when the shift does not overflow |
| Page.Sub | sand/src/mem/page.rs:29-35 | the result stays aligned and is `count` pages lower when the shift does not overflow |
| Page.AddSub | sand/src/mem/page.rs:21-35 | adding pages and subtracting the same count returns the original page |
| Page.RoundOutCovers | sand/src/mem/page.rs:83-85 | every pointer of a range lies inside the rounded-out page range |
| Page.ParseIsRoundOutOfAligned | sand/src/mem/page.rs:83-97 | for an aligned range, `parse_range` succeeds and gives the same pages as `round_out` |
| Maps.RoundOutPages | sand/src/mem/maps.rs:63-68 | the memory becomes the rounded-out page range, and the file start moves down by exactly as much as the memory start moved down; the subtraction must not underflow |
| Maps.Anonymous | sand/src/mem/maps.rs:70-72 | the given pages, with file offset 0 |
| Maps.IsOverlap | sand/src/mem/maps.rs:78-86 | true exactly when neither range is empty and the later start lies below the earlier end |
| Maps.IsOverlapIffShared | sand/src/mem/maps.rs:78-86 | two page ranges overlap exactly when some address lies in both |
| Maps.IsOverlapSymmetric | sand/src/mem/maps.rs:78-86 | the overlap test gives the same answer with its arguments swapped |
| Maps.ParsePages | sand/src/mem/maps.rs:88-97 | succeeds exactly when the file start and both memory ends are page-aligned, and then describes the same memory and file start as the input |
| Maps.ParseIsRoundOut | sand/src/mem/maps.rs:63-97 | an input that parses also rounds out, and rounds out to the same pages and file start |
| Maps.ProtFlags | sand/src/mem/maps.rs:157-161 | a value between 0 and 7 |
| Maps.ProtFlagsBits | sand/src/mem/maps.rs:157-161 | `prot_flags` is the sum of PROT_READ, PROT_WRITE and PROT_EXEC over the set permissions, and each permission is set exactly when its bit is |
| Maps.ProtFlagsInjective | sand/src/mem/maps.rs:157-161 | two protections with the same `prot_flags` are the same protection |
| Maps.Segment.MappedLen | sand/src/mem/maps.rs:120 | the mapped length is what separates the mapped start from the mapped end |
| Maps.SegmentMemRange | sand/src/mem/maps.rs:107-109 | starts at the mapped start and ends `mem_size` bytes past the mapped end |
| Maps.SegmentMemPages | sand/src/mem/maps.rs:111-113 | aligned pages rounded out from the segment's whole memory range |
| Maps.SegmentMappedPages | sand/src/mem/maps.rs:115-117 | aligned pages whose memory is the rounded-out mapped range |
| Maps.SetRangeStart | sand/src/mem/maps.rs:119-124 | the mapped range now starts at `addr` and keeps its length; file start, extra size and protection are unchanged |
| Maps.SetPageStart | sand/src/mem/maps.rs:126-129 | the mapped start moves to page `addr`, keeping its offset within the page and the mapped length |
| Maps.PageOfAligned | sand/src/mem/maps.rs:126-129 | an aligned base plus an in-page offset has that base as its page and that offset within it |
| Maps.OffsetBy | sand/src/mem/maps.rs:131-134 | both ends of the mapped range move up by `k`, keeping the length |
| KernelMem.AreaIsOverlap | sand/src/mem/kernel.rs:167-174 | areas that overlap agree on name, flags and file |
| KernelMem.AreaIsOverlapSymmetric | sand/src/mem/kernel.rs:167-174 | the area overlap test gives the same answer with its arguments swapped |
| KernelMem.AreaIsOverlapIff | sand/src/mem/kernel.rs:167-174 | two areas overlap exactly when they agree on name, flags and file and some address lies in both |
| KernelMem.UserspaceAvoidsKernel | sand/src/mem/kernel.rs:246-263 | an area is user space exactly when it shares an address, as the same mapping (name, flags and file), with none of the vdso, the vvar and the vsyscall area when there is one |
| SyscallResults.Inner | sand/src/syscall/result.rs:21-28 | the value a `Result` conversion ends up converting is never itself a `Result` |
| SyscallResults.Into | sand/src/syscall/result.rs:11-66 | every conversion passes its `assert!` (a precondition); an errno gives a negative result and every other value a non-negative one, a `Result` taking the sign of what it holds |
| SyscallResults.SignTellsResult | sand/src/syscall/result.rs:13-28 | for a `Result` whose `Ok` side is not an errno and whose `Err` side is one, the result is non-negative exactly when it was `Ok` |
| SyscallResults.ValuesSurvive | sand/src/syscall/result.rs:30-66 | a pointer, size, errno, pid or remote fd is returned as its own value, and `()` as 0 |
| Parser.DecDigit | sand/src/parser.rs:117-118 | a decimal digit's value is below 10 |
| Parser.HexDigit | sand/src/parser.rs:147-159 | a hex digit's value, in either case, is below 16 |
| Parser.Run | sand/src/parser.rs:99-103 | the length of the leading run: every byte before it satisfies the test and the byte after it, if any, does not |
| Parser.RunIsMaximal | sand/src/parser.rs:99-103 | a run of `n` matching bytes ended by the end of input or a non-matching byte is exactly the leading run |
| Parser.DecValueBound | sand/src/parser.rs:112-129 | the value of `n` decimal digits is below 10^n |
| Parser.HexValueBound | sand/src/parser.rs:137-168 | the value of `n` hex digits is below 16^n |
| Parser.DecNoWrap | sand/src/parser.rs:112-129 | up to 19 decimal digits fit in 64 bits, so `u64_dec` returns their exact value |
| Parser.HexNoWrap | sand/src/parser.rs:137-168 | up to 16 hex digits fit in 64 bits, so `u64_hex` returns their exact value |
| Parser.WrappingDigit | sand/src/parser.rs:117-118 | the wrapping subtraction of `'0'` is below 10 exactly for the bytes `'0'` to `'9'`, and is then the digit's value |
| Parser.DecStep | sand/src/parser.rs:118-120 | one more digit taken modulo 2^64 keeps the accumulator equal to the value so far modulo 2^64 |
| Parser.HexStep | sand/src/parser.rs:146-159 | `value << 4 \| digit` never carries past 2^64 and keeps the accumulator equal to the value so far modulo 2^64 |
| Parser.ByteReader.Over | sand/src/parser.rs:27-34 | the reader holds the given bytes and starts at the first of them |
| Parser.ByteReader.Peek | sand/src/parser.rs:36-66 | the next unread byte, and `None` exactly when nothing is left; a buffer reader never reports an I/O error |
| Parser.ByteReader.Next | sand/src/parser.rs:69-81 | the next unread byte, now consumed; at the end `None`, with the reader unchanged, so the end repeats |
| Parser.FromBytes | sand/src/parser.rs:27-34 | fails exactly when the bytes exceed the capacity; otherwise a fresh reader whose unread bytes are the given ones |
| Parser.Byte | sand/src/parser.rs:83-91 | Ok exactly when the next byte equals `template`, and then that one byte is consumed; otherwise nothing is consumed |
| Parser.Space | sand/src/parser.rs:95-97 | Ok exactly when the next byte is a space or a tab, consuming it; otherwise nothing is consumed |
| Parser.Spaces | sand/src/parser.rs:99-103 | Ok exactly when at least one space or tab comes next, and then the whole run of them is consumed; otherwise nothing is consumed |
| Parser.Eof | sand/src/parser.rs:105-110 | Ok exactly when no byte is left |
| Parser.U64Dec | sand/src/parser.rs:112-129 | Ok exactly when a digit comes next; then the longest digit run is consumed and its decimal value modulo 2^64 returned; on error nothing is consumed |
| Parser.U64Hex | sand/src/parser.rs:137-168 | Ok exactly when a hex digit comes next; then the longest run of hex digits of either case is consumed and its value modulo 2^64 returned; on error nothing is consumed |
| Parser.U64Hex0x | sand/src/parser.rs:131-135 | Ok exactly when "0x" is followed by at least one hex digit; then the prefix and the digit run are consumed and their hex value returned; on failure the prefix bytes that matched stay consumed |
| ParserExamples.Blah | sand/src/parser.rs:177-186 | reading "blah" gives its four bytes in order and then the end, twice |
| ParserExamples.Blah2 | sand/src/parser.rs:188-202 | the test's sequence of `byte` and `eof` calls on "blah" gives exactly the expected results |
| Layout.Widen | sand/src/process/layout.rs:48-56 | the new lower bound is at or below both the old one and `addr`, and is one of them; the new upper bound is at or above both the old one and `addr + length`, and is one of them |
| Layout.WidenCommutes | sand/src/process/layout.rs:48-56 | including two ranges in either order gives the same bounds |
| Layout.WidenIdempotent | sand/src/process/layout.rs:48-56 | including the same range a second time changes nothing |
| Layout.WidenFromEmpty | sand/src/process/layout.rs:27-56 | from the empty bounds `new` sets (maximum pointer, null), one range gives exactly that range |
| Layout.RandomBrk | sand/src/process/layout.rs:64-71 | the new heap start is page-aligned, at or above the old start and less than 0x2000 pages above it |
| Layout.RandomBrkZero | sand/src/process/layout.rs:64-71 | an aligned heap start with random word 0 stays where it is |
| Layout.MemLayout.constructor | sand/src/process/layout.rs:27-46 | code and data bounds start empty (start at the maximum pointer, end at null), the stack start is the given one, and every other field is null or 0 |
| Layout.MemLayout.IncludeCode | sand/src/process/layout.rs:48-51 | the code bounds become `Widen` of the old bounds and the range; nothing else changes |
| Layout.MemLayout.IncludeData | sand/src/process/layout.rs:53-56 | the data bounds become `Widen` of the old bounds and the range; nothing else changes |
| Layout.MemLayout.IncludeMemory | sand/src/process/layout.rs:58-62 | brk and start_brk each become the larger of their old value and the range's end, so both reach at least `addr + length` |
| Layout.MemLayout.RandomizeBrk | sand/src/process/layout.rs:64-71 | brk and start_brk both become `RandomBrk` of the old start_brk: equal, page-aligned and not below it |
| Stack.AlignDown | sand/src/process/stack.rs:97-103 | the largest multiple of the alignment at or below the address: a multiple, not above it, less than one alignment below |
| Stack.MultipleMod | sand/src/process/stack.rs:97-103 | a multiple of `a` leaves remainder 0 |
| Stack.AlignDownIsGreatest | sand/src/process/stack.rs:97-103 | every multiple of the alignment at or below the address is at or below `AlignDown`: it is the greatest one |
| Stack.MultiplesGap | sand/src/process/stack.rs:97-103 | two different multiples of `a` are at least `a` apart |
| Stack.RandomTop | sand/src/process/stack.rs:68-70 | the top is an aligned page exactly `random & 0x3fffff` pages below the limit |
| Stack.InitialStackOf | sand/src/process/stack.rs:42-45 | the stack pointer is the bottom, the pages end at the top and start at the page holding the address 64 KiB below the bottom |
| Stack.StackBuilder.constructor | sand/src/process/stack.rs:73-85 | the top is the randomised page below the task end, the stack is empty (bottom at the top) and no vector is stored |
| Stack.StackBuilder.Load | sand/src/process/stack.rs:36-95 | only with no stored vectors pending (the `assert_eq!`); the initial stack is laid out from top and bottom |
| Stack.StackBuilder.Align | sand/src/process/stack.rs:97-103 | only for a power-of-two alignment (the `assert_eq!`); bottom is rounded down to it and returned, and stays below the top |
| Stack.StackBuilder.SkipBytes | sand/src/process/stack.rs:105-113 | E2BIG, with bottom unchanged, exactly when the stack would exceed 256 MiB; otherwise bottom moves down by `length` and is returned |
| Stack.StackBuilder.StoreVectors | sand/src/process/stack.rs:201-222 | the words must fit the scratch area (the `assert!`); on a write error that error with the count unchanged, otherwise the count grows by the number of words and the stored bytes (`stored_vector_bytes`) by eight per word |
| Stack.StackBuilder.PushStoredVectors | sand/src/process/stack.rs:164-187 | E2BIG when the stored words would take the stack past 256 MiB, else the copy's error; on error nothing changes; on success bottom moves down by exactly the stored bytes (`stored_vector_bytes`), the count and the stored bytes are 0 and the new bottom is returned |
| Stack.FreshWithinLimit | sand/src/process/stack.rs:105-113 | on an empty stack, a reservation stays within the limit exactly when it is at most 256 MiB |
| ProcessTables.PidToIndex | sand/src/process.rs:16-22 | an index exactly for the pids 1 to 1024, and then it is `pid - 1`, below 1024 |
| ProcessTables.IndexToPid | sand/src/process.rs:24-27 | only for an index below 1024 (the `assert!`); the pid is between 1 and 1024 |
| ProcessTables.PidRoundTrip | sand/src/process.rs:16-27 | a valid pid converted to its index and back is the same pid |
| ProcessTables.IndexRoundTrip | sand/src/process.rs:16-27 | an index converted to its pid and back is the same index |
| ProcessTables.Probe | sand/src/process.rs:54 | the slot `k` steps round the table from `start` is always a slot of the table |
| ProcessTables.ProbeCovers | sand/src/process.rs:50-55 | going round from any start reaches every slot within 1024 steps |
| ProcessTables.ProcessTable.constructor | sand/src/process.rs:30-35 | a fresh table of 1024 empty slots, with the hint at 0 |
| ProcessTables.ProcessTable.Get | sand/src/process.rs:37-39 | for a valid pid, what its slot holds; for any other pid, nothing |
| ProcessTables.ProcessTable.Free | sand/src/process.rs:45-47 | returns what `get` gave before, and afterwards `get` gives nothing; every other slot is unchanged |
| ProcessTables.ProcessTable.UnusedIndex | sand/src/process.rs:49-61 | corrected search: a slot that is empty and the first empty one going round from the hint; `None` exactly when every slot is taken |
| ProcessTables.ProcessTable.UnusedIndexAsWritten | sand/src/process.rs:49-61 | the loop as written, which continues while slots are empty: it finds a slot exactly when every slot is empty, and then it is the hint |
| ProcessTables.ProcessTable.Allocate | sand/src/process.rs:63-71 | corrected: succeeds exactly when some slot was empty; the pid's slot was empty and now holds the process, it is the first empty slot round from the hint, the hint moves past it, and no other slot changes; on failure the process comes back and nothing changes |
| ProcessTables.ProcessTable.AllocateAsWritten | sand/src/process.rs:63-71 | as written: succeeds exactly when the whole table was empty, at the hint's slot; otherwise the process comes back and nothing changes |
| ProcessTables.AsWrittenSecondAllocationFails | sand/src/process.rs:49-71 | with the code as written, a fresh table gives pid 1 to the first process and refuses the second |
| ProcessTables.SecondAllocationSucceeds | sand/src/process.rs:49-71 | with the corrected search, a fresh table gives pids 1 and 2 to the first two processes |
| Bpf.TruncU32 | sand/src/bpf.rs:97-103 | `k as u32` keeps any value that fits in 32 bits |
| Bpf.StatementsFallThrough | sand/src/bpf.rs:77-103 | every instruction built on `stmt` has both jump offsets zero, `load` and `store` keep a 32-bit offset, and the five kinds of statement have distinct opcodes |
| Bpf.AnyEqJumps | sand/src/bpf.rs:56-61 | one equality test per constant |
| Bpf.AnyEqTargets | sand/src/bpf.rs:56-64 | in the code `if_any_eq` emits, each test compares with its constant and on a match lands on the block's first instruction (`i + 1 + jt` is `n + 1`), on a miss falls through, and the jump after the tests lands just past the block |
| Bpf.IfEqTargets | sand/src/bpf.rs:50-54 | in the code `if_eq` emits, a match enters the block and a miss lands just past it |
| Bpf.ProgramBuffer.Program | sand/src/bpf.rs:12-15 | the program is the first `len` instructions of the array |
| Bpf.ProgramBuffer.constructor | sand/src/bpf.rs:17-26 | a fresh array of 4096 slots and an empty program |
| Bpf.ProgramBuffer.Inst | sand/src/bpf.rs:42-48 | a full buffer is the panic (a precondition); the program grows by exactly the instruction |
| Bpf.ProgramBuffer.Block | sand/src/bpf.rs:36-40 | the program grows by the block's instructions, in order |
| Bpf.ProgramBuffer.IfEq | sand/src/bpf.rs:50-54 | a block longer than 255 or a full buffer is a panic (preconditions); the program grows by one test with `jt` 0 and `jf` the block length, then the block |
| Bpf.ProgramBuffer.IfAnyEq | sand/src/bpf.rs:56-64 | the program grows by one test per constant, the `i`-th jumping `n - i` forward on a match, then a jump over the block, then the block |
| ImageDigest.Parse | src/image/digest.rs:112-161 | succeeds exactly when the whole string matches the digest pattern; the digest keeps the string, and the string is its format part, a colon, and its hex part; otherwise InvalidReferenceFormat carrying the input |
| ImageDigest.FromParts | src/image/digest.rs:84-89 | succeeds exactly when the format part and the hex part are each valid, and then the digest's parts are exactly those given |
| ImageDigest.JoinedParts | src/image/digest.rs:84-161 | `format:hex` matches the pattern exactly when both parts are valid, and when the format has no colon the first colon is the joining one |
| ImageDigest.ColonNotInFormat | src/image/digest.rs:141-161 | a string holding a colon is neither a valid format part nor a valid hex part |
| ImageDigest.ParseSplitIsUnique | src/image/digest.rs:112-161 | any split at a colon into a valid format and a valid hex part is the split `parse` finds: the capture groups are unique |
| ImageDigest.FromPartsOfParts | src/image/digest.rs:84-139 | a valid digest is rebuilt exactly by `from_parts` of its own `format_str` and `hex_str` |
| ImageDigest.DigestChars | src/image/digest.rs:69-76 | a valid digest holds no `/` and no `@`, so it cannot be confused with the other parts of an image name |
| ImageDigest.DigestEquality | src/image/digest.rs:23-29 | two valid digests are equal exactly when their strings are |
| ImageDigest.LowerHexBytes | src/image/digest.rs:88 | `{:x}` of a byte array is two lowercase hex digits per byte |
| ImageDigest.FromBytesOk | src/image/digest.rs:84-102 | a digest from a byte array succeeds exactly when the format is valid and there are at least 16 bytes, so a 32-byte sha256 digest always succeeds |
| ImageDigest.ExampleHexOk | src/image/digest.rs:104-111 | the example's 32 digits are valid hex |
| ImageDigest.DigestAccepted | src/image/digest.rs:104-111 | the documented example `format:0011…eeff` parses |
| ImageDigest.DigestSeparatorsAccepted | src/image/tests.rs:152-154 | a format using each of `+ . _ -` between letters parses |
| ImageDigest.DigestTooShort | src/image/tests.rs:164 | 31 hex digits are rejected |
| ImageDigest.DigestTrailingSeparator | src/image/tests.rs:155-157 | a separator not followed by a letter is rejected |
| ImageDigest.DigestUppercase | src/image/digest.rs:157 | a hex part with uppercase digits is rejected by the pattern, although that test expects it to parse |
| ImageDigest.ParseErr | src/image/digest.rs:112-125 | `f:h` with no colon in `f` is rejected whenever either part is invalid |
| ImageRegistry.DomainHasNoColon | src/image/registry.rs:84-108 | a valid domain holds no colon, so the first colon of a registry string starts its port |
| ImageRegistry.JoinedLabels | src/image/registry.rs:88-98 | labels joined with dots hold no colon |
| ImageRegistry.RegistryChars | src/image/registry.rs:30-36 | a valid registry string holds no `/` and no `@` |
| ImageRegistry.JoinedLabelChars | src/image/registry.rs:88-98 | labels joined with dots hold no `/` and no `@` |
| ImageRegistry.DomainEnd | src/image/registry.rs:100-105 | the end of the domain is the first colon, or the end of the string when there is none |
| ImageRegistry.PortDigits | src/image/registry.rs:100-105 | there is a port part exactly when the string holds a colon |
| ImageRegistry.Registry.ProtocolStr | src/image/registry.rs:76-82 | "https" exactly when the registry is https, and "http" exactly when it is not |
| ImageRegistry.Parse | src/image/registry.rs:42-58 | as written: a port above 65535 makes `parse().unwrap()` panic (a precondition); succeeds exactly when the string matches the registry pattern, keeping the string, with the domain up to the first colon, https exactly when the domain has a dot, and a port exactly when there is a colon; otherwise InvalidReferenceFormat |
| ImageRegistry.ParseChecked | src/image/registry.rs:42-58 | corrected: succeeds exactly when the string matches and its port fits in 16 bits; otherwise InvalidReferenceFormat rather than a panic |
| ImageRegistry.ParseCheckedAgrees | src/image/registry.rs:42-58 | wherever the original parse does not panic, the checked parse gives the same result |
| ImageRegistry.ParseAsStr | src/image/registry.rs:37-58 | every valid registry is given back by parsing its own string |
| ImageRegistry.RegistryShape | src/image/registry.rs:84-108 | a registry string is a domain alone, or a domain, a colon and the port digits |
| ImageRegistry.JoinDomainPort | src/image/registry.rs:84-108 | `domain:port` built from valid parts is a registry string that splits back into exactly those parts |
| ImageRegistry.ExtendDomain | src/image/registry.rs:92-98 | a label, a dot and a domain make a domain |
| ImageRegistry.LabelIsDomain | src/image/registry.rs:88-91 | a single label is a domain |
| ImageRegistry.DomainOnly | src/image/registry.rs:42-58 | a domain without a port parses, with the whole string as its domain, no port, and https exactly when it has a dot |
| ImageRegistry.DottedIsHttps | src/image/registry.rs:12-82 | `balls.io` is reached by https |
| ImageRegistry.LocalhostIsHttp | src/image/registry.rs:12-82 | `localhost`, with no dot, is reached by http |
| ImageRegistry.RegistryEquality | src/image/registry.rs:111-117 | two valid registries are equal exactly when their strings are |
| ImageRepository.Repository.Iter | src/image/repository.rs:74-78 | iterating from the start yields exactly the slash-separated parts of the path |
| ImageRepository.Repository.Join | src/image/repository.rs:84-88 | the joined path's parts are this path's parts followed by the other's, and joining two valid paths gives a valid path |
| ImageRepository.RepositoryIter.Next | src/image/repository.rs:28-39 | `None` exactly when nothing remains, and then the iterator stays as it is; otherwise what remains gets shorter |
| ImageRepository.PartsCollect | src/image/repository.rs:28-39 | an iterator over a string yields exactly its slash-separated parts, in order |
| ImageRepository.Parse | src/image/repository.rs:61-110 | succeeds exactly when every slash-separated part is a valid component, keeping the string; otherwise InvalidReferenceFormat carrying the input |
| ImageRepository.RepoChars | src/image/repository.rs:42-48 | a valid repository holds only lowercase alphanumerics, `.`, `_`, `-` and slashes |
| ImageRepository.JoinedChars | src/image/repository.rs:100-107 | components joined with slashes hold only component characters and slashes |
| ImageRepository.NoStraySlash | src/image/repository.rs:42-83 | a valid repository is not empty, neither starts nor ends with a slash, and never has two slashes in a row |
| ImageRepository.JoinedEnds | src/image/repository.rs:100-107 | components joined with slashes neither start nor end with a slash |
| ImageRepository.DoubleSlash | src/image/repository.rs:100-107 | components joined with slashes never have two slashes in a row |
| ImageRepository.RunIsComponent | src/image/repository.rs:94 | a run of lowercase alphanumerics is a component |
| ImageRepository.ExtendComponent | src/image/repository.rs:95-98 | a component, an allowed separator (`.`, `_`, `__` or a run of dashes) and an alphanumeric run make a component: the pattern's repetition stays inside the language |
| ImageRepository.ComponentIsRepo | src/image/repository.rs:92-99 | a single valid component is a valid repository |
| ImageRepository.StraySlashRejected | src/image/repository.rs:61-71 | a slash at either end or next to another slash makes `parse` fail |
| ImageRepository.AcceptsBlah | src/image/tests.rs:176 | `blah` parses |
| ImageRepository.AcceptsDotted | src/image/tests.rs:177 | `blah.ok` parses |
| ImageRepository.RejectsComponent | src/image/repository.rs:61-71 | a slash-free string that is not a valid component is rejected |
| ImageRepository.RejectsSingles | src/image/tests.rs:174-179 | the empty string, `.ok` and `blah..ok` are rejected |
| ImageRepository.AcceptsTwoComponents | src/image/tests.rs:180 | `blah/blah.ok` parses |
| ImageRepository.RejectsSlashes | src/image/tests.rs:175-185 | `/`, `blah/`, `/blah` and `blah//blah` are rejected |
| ImageTag.Parse | src/image/tag.rs:34-60 | succeeds exactly when the string is 1 to 128 characters of `[a-zA-Z0-9_.-]` not starting with `.` or `-`, keeping the string; otherwise InvalidReferenceFormat carrying the input |
| ImageTag.Latest | src/image/tag.rs:47-56 | `latest` is a valid tag and is the special tag |
| ImageTag.ParseAsStr | src/image/tag.rs:29-44 | a valid tag's string parses back to the same tag |
| ImageTag.TagExamples | src/image/tag.rs:58-60 | `latest`, `_under` and `v1.2-rc3` are tags; the empty string, `.hidden`, `-dash` and `a:b` are not |
| ImageVersions.ImageVersion.IsTag | src/image/version.rs:47-60 | a version is a tag exactly when it is not a content digest |
| ImageVersions.Parse | src/image/version.rs:38-44 | a string with a colon succeeds exactly when it is a valid digest and becomes one, any other exactly when it is a valid tag; the string is kept, and the error of the part parser passes through |
| ImageVersions.ColonTellsKinds | src/image/version.rs:38-44 | a valid version is a digest exactly when its string holds a colon |
| ImageVersions.ParseAsStr | src/image/version.rs:30-44 | a valid version's string parses back to the same version |
| ImageVersions.VersionEquality | src/image/version.rs:21 | valid versions are equal exactly when their strings are |
| ImageNames.Cut | src/image/name.rs:152-160 | the first occurrence of a separator within a window, or the window's end: no occurrence before it and the separator at it |
| ImageNames.RepoStart | src/image/name.rs:120-167 | the repository starts after the first slash exactly when the text before it names a registry, and at 0 otherwise |
| ImageNames.DigestAt | src/image/name.rs:152-160 | the digest's `@` lies at or after the repository start |
| ImageNames.TagAt | src/image/name.rs:152-160 | the tag's `:` lies between the repository start and the digest's `@` |
| ImageNames.Parse | src/image/name.rs:118-190 | succeeds exactly when the repository piece is a repository and the tag and digest pieces, when present, are a tag and a digest; ranges stay inside the kept string; otherwise InvalidReferenceFormat carrying the input |
| ImageNames.ParseParts | src/image/name.rs:94-188 | the parts of a parsed name are the pieces between the registry slash, the tag colon and the digest at-sign |
| ImageNames.CutAt | src/image/name.rs:152-160 | the cut is the one index with no separator before it and the separator at it |
| ImageNames.HasRegistryPrefix | src/image/name.rs:120-150 | text without a slash added after the first segment does not change whether it names a registry |
| ImageNames.PartChars | src/image/name.rs:151-165 | a registry holds no slash, a repository no colon or at-sign, a tag and digest no slash and a tag no at-sign |
| ImageNames.AssembledStart | src/image/name.rs:62-80 | in the string `from_parts` writes, the repository starts right after the given registry and its slash |
| ImageNames.AssembledCuts | src/image/name.rs:62-80 | in the string `from_parts` writes, the tag and digest cuts land on the separators it wrote |
| ImageNames.AssembledPartsAt | src/image/name.rs:62-80 | when the cuts land on the written separators, the pieces are the parts written |
| ImageNames.AssembledParses | src/image/name.rs:62-91 | valid parts written out parse back into exactly those parts |
| ImageNames.PartsAtAssemble | src/image/name.rs:94-101 | any string is the pieces its cuts delimit, written back with their separators |
| ImageNames.PiecesAt | src/image/name.rs:94-101 | each written piece is the slice of the string between its cuts |
| ImageNames.RegistryOfParts | src/image/name.rs:167-176 | a registry piece is always a registry prefix |
| ImageNames.NoRegistryOfParts | src/image/name.rs:178-188 | with no registry piece, the repository piece does not read as having one |
| ImageNames.ParsedPartsOk | src/image/name.rs:118-190 | the pieces of a string the parser accepts are valid parts |
| ImageNames.ParsedParts | src/image/name.rs:94-190 | the parts of a parsed name are valid and write back into its string |
| ImageNames.ValidParts | src/image/name.rs:94-101 | a valid name's ranges lie in its string, and its parts are valid and write back into it |
| ImageNames.FromParts | src/image/name.rs:62-91 | succeeds exactly when the parts are valid and would be parsed as meant; then the name's parts are the ones given and its string is their written form; otherwise InvalidReferenceFormat carrying that written form |
| ImageNames.FromPartsOk | src/image/name.rs:80-90 | valid parts always parse, and a parse gives the written parts back exactly when they are valid parts |
| ImageNames.FromPartsOfParts | src/image/name.rs:62-101 | a valid name is rebuilt from its own parts |
| ImageNames.NameEquality | src/image/name.rs:269-273 | valid names are equal exactly when their strings are |
| ImageNames.RegistryOf | src/image/name.rs:219-222 | a registry exactly when the name has a registry piece, valid and with that string (provided its port fits 16 bits) |
| ImageNames.RepositoryOf | src/image/name.rs:225-227 | the repository piece parses as a valid repository with that string |
| ImageNames.TagOf | src/image/name.rs:230-233 | a tag exactly when the name has a tag piece, valid and with that string |
| ImageNames.ContentDigestOf | src/image/name.rs:236-239 | a digest exactly when the name has a digest piece, valid and with that string |
| ImageNames.Version | src/image/name.rs:107-115 | the name's digest when it has one, else its tag, else `latest`; always a valid version |
| ImageNames.WithFoundDigest | src/image/name.rs:248-264 | succeeds exactly when the name has no digest or the found one; the result has the name's parts with the found digest; otherwise ContentDigestMismatch with both digests |
| ImageNames.WithDigestOk | src/image/name.rs:250-255 | a name without a digest takes any valid digest |
| ImageNames.ParseChecked | src/image/name.rs:118-190 | as `parse`, but a registry port above 65535 is also a format error |
| ImageNames.CheckedRegistryReadable | src/image/name.rs:219-222 | every name the checked parse accepts has a registry that can be read exactly when it has a registry piece |
| ImageNames.NoSlashNoRegistry | src/image/name.rs:120-150 | a string with no slash names no registry |
| ImageNames.PrefixIsRegistry | src/image/name.rs:120-150 | a registry prefix followed by a slash names a registry |
| ImageNames.SingleRepository | src/image/name.rs:62-91 | a one-component repository alone is accepted by `from_parts` and keeps its parts and string |
| ImageNames.BusyboxFromParts | src/image/tests.rs:4-12 | `from_parts(None, "busybox", None, None)` succeeds and gives back those parts |
| ImageNames.LocalhostPrefix | src/image/name.rs:144-147 | `localhost` alone names a registry |
| ImageNames.LocalhostRepositoryRefused | src/image/tests.rs:14 | `from_parts(None, "localhost/busybox", None, None)` fails |
| ImageNames.PortInRepositoryRefused | src/image/tests.rs:16 | `from_parts(None, "library:42/busybox", None, None)` fails |
| ImageNames.PortPrefix | src/image/name.rs:137-143 | a label and a port name a registry whose port digits are that port |
| ImageNames.RegistryWithPortFromParts | src/image/tests.rs:17 | `from_parts(Some("library:42"), "busybox", None, None)` succeeds |
| ImageNames.AsWrittenPortOverflow | src/image/name.rs:219-222 | a name whose registry is `localhost:65536` parses, yet that port does not fit 16 bits |
| ImageNames.CheckedPortOverflow | src/image/registry.rs:54 | the checked parse refuses that same name |
| ImageNames.CompareStr | src/image/name.rs:300-310 | string order is Equal exactly for equal strings, and a proper prefix comes before the longer string |
| ImageNames.CompareFlip | src/image/name.rs:300-310 | comparing two strings the other way round flips Less and Greater |
| ImageNames.NameOrder | src/image/name.rs:300-310 | valid names compare Equal exactly when they are equal, and swapping them flips the order |
| RegistryDefaults.DefaultRegistry.ResolveImageName | src/registry/default.rs:56-75 | always yields a valid registry and a valid repository |
| RegistryDefaults.FromRegistry | src/registry/default.rs:20-28 | settings with the registry as network name, no other names and no prefix, which count that registry as default |
| RegistryDefaults.SecondComponent | src/registry/default.rs:65 | the repository iterator yields a second component exactly when the path has at least two slash-separated parts |
| RegistryDefaults.IsDefaultMembership | src/registry/default.rs:45-52 | a registry is default exactly when it equals the network name or is among the other names |
| RegistryDefaults.NoRegistryIsDefault | src/registry/default.rs:46-47 | a name without a registry is always default |
| RegistryDefaults.Resolution | src/registry/default.rs:56-75 | a default registry resolves to this server, another one to itself with the repository unchanged; a repository of two or more parts is kept; a one-part repository under a prefix gets the prefix's parts in front of it; without a prefix it is kept |
| RegistryDefaults.New | src/registry/default.rs:32-38 | `registry-1.docker.io`, also known as `docker.io`, with the prefix `library`, all valid |
| RegistryDefaults.DockerIoParses | src/registry/default.rs:35 | `docker.io` parses as a registry |
| RegistryDefaults.NetworkNameParses | src/registry/default.rs:34 | `registry-1.docker.io` parses as a registry |
| RegistryDefaults.BuiltInNames | src/registry/default.rs:34-36 | the three built-in names parse, so the `unwrap`s cannot panic |
| StorageKeys.Shift | src/filesystem/storage/key.rs:26 | moving a range keeps its length |
| StorageKeys.StorageKey.Range | src/filesystem/storage/key.rs:21-30 | a blob or blob part gives a part of the same blob whose range is the sub-range moved by the part's start; other keys give `Err(())`; validity is kept |
| StorageKeys.StorageKey.ToPath | src/filesystem/storage/key.rs:32-62 | the path is the base directory, the kind's directory name and at least one more name |
| StorageKeys.StorageKey.Names | src/filesystem/storage/key.rs:32-62 | every key pushes at least one name after its directory |
| StorageKeys.RangeComposes | src/filesystem/storage/key.rs:21-30 | taking a range of a range is taking the composed range at once |
| StorageKeys.BlobRange | src/filesystem/storage/key.rs:23 | a blob's range is the part with exactly that range |
| StorageKeys.NamesAreComponents | src/filesystem/storage/key.rs:34-60 | every pushed name is one non-empty path component with no slash |
| StorageKeys.DigestNonEmpty | src/filesystem/storage/key.rs:43 | a valid digest's string is not empty |
| StorageKeys.RegistryNonEmpty | src/filesystem/storage/key.rs:56 | a valid registry's string is not empty |
| StorageKeys.RepositoryNonEmpty | src/filesystem/storage/key.rs:57 | a valid repository's string is not empty |
| StorageKeys.HexNoSlash | src/filesystem/storage/key.rs:50 | the hex range name holds no slash |
| StorageKeys.ReplacedNoSlash | src/filesystem/storage/key.rs:57 | replacing slashes with colons leaves no slash |
| StorageKeys.VersionComponent | src/filesystem/storage/key.rs:58 | a valid version's string is a non-empty name with no slash |
| StorageKeys.NotInNumeral | src/filesystem/storage/key.rs:37-50 | a character that is no hex digit never occurs in a numeral |
| StorageKeys.NumeralPairUnique | src/filesystem/storage/key.rs:37-50 | two numbers around a separator give a name that tells both numbers |
| StorageKeys.ReplacedRepositoryUnique | src/filesystem/storage/key.rs:57 | a repository's colon-joined name tells the repository |
| StorageKeys.ToPathInjective | src/filesystem/storage/key.rs:32-62 | distinct valid keys are stored under distinct paths |
| StorageKeys.SameDirSameKind | src/filesystem/storage/key.rs:36-55 | each kind of key has a directory of its own |
| TarEntries.PadBounds | src/filesystem/tar.rs:49-57 | the padded size is the least multiple of 512 not below the size |
| TarEntries.PadIdempotent | src/filesystem/tar.rs:49-57 | a multiple of 512 is left alone, so padding twice is padding once |
| TarEntries.Offsets | src/filesystem/tar.rs:25-45 | one header offset per entry |
| TarEntries.Keys | src/filesystem/tar.rs:25-45 | when the keys are found, there is one per entry |
| TarEntries.ExtractKeys | src/filesystem/tar.rs:20-46 | the loop yields exactly the keys of the entries, entry by entry, or the first error |
| TarEntries.GlueStep | src/filesystem/tar.rs:25-45 | adding a key to those found so far commutes with putting it in front of the ones still to come |
| TarEntries.KeysAt | src/filesystem/tar.rs:30-43 | an entry has no key exactly when it is empty; otherwise its key is the part of the archive's blob from its data start for its size |
| TarEntries.KeysErr | src/filesystem/tar.rs:36-41 | extraction fails exactly when some entry holds data and the archive is neither a blob nor a blob part, and then with TARFileError |
| TarEntries.OffsetsAligned | src/filesystem/tar.rs:43 | every header after the first is read at a multiple of 512 |
| TarEntries.OffsetStep | src/filesystem/tar.rs:43 | the header after an entry is read at the padded end of that entry's data |
| MappedFiles.MapRef.Bytes | src/filesystem/mmap.rs:89-93 | the window's bytes are `filesize` bytes of the mapping from `offset` on |
| MappedFiles.MapRef.Range | src/filesystem/mmap.rs:61-71 | succeeds exactly when the end fits the window; the result views the same mapping from the summed offset for `end - start` bytes; otherwise `Err(())` |
| MappedFiles.MapRef.Downgrade | src/filesystem/mmap.rs:53-59 | the weak handle keeps the mapping, offset and length |
| MappedFiles.WeakMapRef.Upgrade | src/filesystem/mmap.rs:25-31 | succeeds exactly while the mapping is alive, with the same mapping, offset and length |
| MappedFiles.Open | src/filesystem/mmap.rs:42-51 | the whole file from offset 0, whose bytes are the file's contents |
| MappedFiles.RangeBytes | src/filesystem/mmap.rs:61-93 | the bytes of a sub-window are that slice of the window's bytes |
| MappedFiles.RangeOfRange | src/filesystem/mmap.rs:61-71 | a sub-window of a sub-window is the sub-window at the summed start |
| MappedFiles.DowngradeUpgrade | src/filesystem/mmap.rs:25-59 | while the mapping is alive a weak handle gives back the same view, and nothing once it is gone |
| TarEntries.Metadata | src/filesystem/tar.rs:59-119 | a tar format error leaves the filesystem as it was; any other failure is a filesystem error wrapped as an image error |
| TarEntries.ExtractFileMetadata | src/filesystem/tar.rs:59-119 | the filesystem and the result after one entry are those of the dispatch on its kind, through a writer at the root, and a root directory stays one |
| TarEntries.RegularEntryStored | src/filesystem/tar.rs:94 | a regular entry that is written becomes a new node under its name in some directory, holding the archive part when it has data and an empty file otherwise |
| TarEntries.MetadataRefusals | src/filesystem/tar.rs:96-116 | a link without a target or a device without both numbers is a tar format error that changes nothing, and exactly those are; any other kind is skipped |
| EnvVars.NewCString | src/container/builder.rs:251 | succeeds exactly when the bytes hold no NUL, and keeps them; otherwise NulError |
| EnvVars.SplitEntryParts | src/container/builder.rs:236-242 | the key holds no `=`; there is no value exactly when the entry has no `=`, and then the key is the whole entry; otherwise the entry is key, `=`, value |
| EnvVars.Join | src/container/builder.rs:244-252 | succeeds exactly when the key and the value hold no NUL |
| EnvVars.EntryRoundTrip | src/container/builder.rs:236-252 | an entry joined from a key without `=` splits back into that key and value |
| EnvVars.SplitEntryAsWrittenWithValue | src/container/builder.rs:236-242 | for an entry with an `=`, the split as written agrees with the intended one |
| EnvVars.SplitEntryAsWrittenBare | src/container/builder.rs:237-239 | as written, a bare `KEY` splits into the key with its NUL terminator, which differs from the intended key |
| EnvVars.FirstMatch | src/container/builder.rs:255-260 | the index of the first entry whose key is the given one, and none exactly when no entry has that key |
| EnvVars.SetIn | src/container/builder.rs:274-284 | the first entry with the key replaced by the joined entry, or the joined entry appended when none has it; every other entry kept |
| EnvVars.RemoveIn | src/container/builder.rs:264-272 | the first entry with the key deleted and all others kept in order; unchanged when none has it |
| EnvVars.EnvList.constructor | src/container/builder.rs:254-284 | the list holds the given entries |
| EnvVars.EnvList.Get | src/container/builder.rs:254-262 | the value of the first entry with the key, or None when no entry has it |
| EnvVars.EnvList.Remove | src/container/builder.rs:264-272 | the list becomes the list with the first matching entry deleted, and that entry is returned; nothing is returned when none matches |
| EnvVars.EnvList.Set | src/container/builder.rs:274-284 | fails exactly when the join fails and then changes nothing; otherwise the first match is replaced or the entry appended |
| EnvVars.EnvList.Clear | src/container/builder.rs:225-230 | the list becomes empty |
| EnvVars.LookupAfterSet | src/container/builder.rs:254-284 | after setting a key, looking it up gives the value set |
| EnvVars.LookupAfterSetOther | src/container/builder.rs:254-284 | setting one key leaves every other key's lookup as it was |
| EnvVars.FirstMatchAt | src/container/builder.rs:255-260 | the first match is the one entry with the key that has none before it |
| EnvVars.LookupAfterRemoveOther | src/container/builder.rs:254-272 | removing one key leaves every other key's lookup as it was |
| EnvVars.LookupSkipping | src/container/builder.rs:264-272 | dropping an entry whose key differs does not change a lookup |
| EnvVars.LookupAfterRemove | src/container/builder.rs:254-272 | removing a key uncovers the next entry with that key, if any |
| EnvVars.LookupPast | src/container/builder.rs:254-262 | entries in front that lack the key do not change what the key looks up |
| EnvVars.AsWrittenBareEntryLost | src/container/builder.rs:236-262 | as written, a bare `PATH` entry is not found by the key `PATH`; the intended lookup finds it with no value |
| EnvVars.AsWrittenSplitJoinBare | src/container/builder.rs:236-252 | as written, a bare key does not survive a join and a split |
| EnvVars.FirstMatchAsWritten | src/container/builder.rs:255-260 | as written, the index of the first entry whose split key, NUL kept for a bare entry, is the given key |
| EnvVars.SetInAsWritten | src/container/builder.rs:274-284 | as written, `set` replaces the first entry matched through the split as written, or appends; the joined entry is in the result and the length grows by at most one |
| EnvVars.RemoveInAsWritten | src/container/builder.rs:264-272 | as written, `remove` deletes the first entry matched through the split as written; the length shrinks by at most one |
| EnvVars.FirstMatchAgrees | src/container/builder.rs:236-260 | when every entry has an `=`, the match as written and the intended match are the same |
| EnvVars.AsWrittenAgreesWithValues | src/container/builder.rs:236-284 | when every entry has an `=`, `set` and `remove` as written agree with the intended ones |
| EnvVars.AsWrittenSetDuplicates | src/container/builder.rs:274-284 | as written, setting a key held by a bare entry appends a second entry; the intended `set` replaces it |
| EnvVars.AsWrittenRemoveKeeps | src/container/builder.rs:264-272 | as written, removing a key held by a bare entry keeps it; the intended `remove` deletes it |
| EnvVars.AsWrittenBareSkipped | src/container/builder.rs:254-262 | as written, with a bare `PATH` before `PATH=dirs`, the lookup finds `dirs`; the intended lookup stops at the bare entry with no value |
| ContainerBuilders.Accepted | src/container/builder.rs:144-156 | the arguments that are C strings, in order: all of them when every one is, and never more than given |
| ContainerBuilders.AcceptedStep | src/container/builder.rs:145-154 | one more argument is kept exactly when it is a C string |
| ContainerBuilders.PathPushShape | src/container/builder.rs:111-113 | an absolute path replaces the buffer; a relative one is appended after a slash unless the buffer is empty or already ends in one; C strings stay C strings |
| ContainerBuilders.FirstOpen | src/container/builder.rs:110-118 | the first candidate that opens, none before it opening, and none exactly when no candidate opens |
| ContainerBuilders.CandidateAt | src/container/builder.rs:111-113 | the file tried for the i-th `PATH` entry is the entry pushed onto the working directory, then the name pushed onto that |
| ContainerBuilders.NoneOpens | src/container/builder.rs:110-120 | when no candidate opens, the search gives the name back unchanged |
| ContainerBuilders.CollectCStrings | src/container/builder.rs:70-92 | succeeds exactly when every string is a C string, giving them all back in order; otherwise NulError |
| ContainerBuilders.ContainerBuilder.constructor | src/container/builder.rs:63-93 | the builder holds the given settings, no override and no recorded error |
| ContainerBuilders.ContainerBuilder.New | src/container/builder.rs:41-94 | succeeds exactly when the image's working directory, entrypoint, command and environment are all C strings; then holds them, with an empty entrypoint when the image has none, no override and no error |
| ContainerBuilders.ContainerBuilder.Arg | src/container/builder.rs:145-156 | a C string is appended to the override, which is started empty if absent; any other records NulError and leaves the override as it was; nothing else changes |
| ContainerBuilders.ContainerBuilder.Args | src/container/builder.rs:133-142 | the override is the old one extended by the accepted arguments, and the error is recorded exactly when one held a NUL |
| ContainerBuilders.ContainerBuilder.CurrentDir | src/container/builder.rs:159-165 | a C string becomes the working directory; any other records NulError and changes nothing else |
| ContainerBuilders.ContainerBuilder.Entrypoint | src/container/builder.rs:171-188 | the entrypoint is replaced as a whole when every argument is a C string; otherwise NulError is recorded and the entrypoint stays |
| ContainerBuilders.ContainerBuilder.Env | src/container/builder.rs:191-204 | the environment after setting `key=val`, with NulError recorded exactly when the join fails |
| ContainerBuilders.ContainerBuilder.Envs | src/container/builder.rs:207-217 | the environment after setting each pair in turn, with NulError recorded exactly when some pair held a NUL |
| ContainerBuilders.ContainerBuilder.EnvRemove | src/container/builder.rs:220-223 | the first entry with the key is removed and the rest stays |
| ContainerBuilders.ContainerBuilder.EnvClear | src/container/builder.rs:227-230 | no variables at all remain |
| ContainerBuilders.ContainerBuilder.ProgramFile | src/container/builder.rs:107-120 | the program file is the name resolved against the builder's `PATH` and working directory |
| ContainerBuilders.ContainerBuilder.Spawn | src/container/builder.rs:97-130 | a recorded error first, then an empty command line, else the command line with the resolved program, the working directory and the environment |
| ContainerBuilders.SearchPath | src/container/builder.rs:110-118 | the first candidate that opens, or the name itself when none does |
| ContainerBuilders.FirstOpenAt | src/container/builder.rs:114-117 | the first candidate that opens is the one with none before it |
| ContainerBuilders.ArgsStep | src/container/builder.rs:138-140 | one argument more gives the override and the error that one more `arg` call gives |
| ContainerBuilders.EnvsStep | src/container/builder.rs:213-215 | one pair more gives the environment and the error that one more `env` call gives |
| ContainerBuilders.AnyPairNulStep | src/container/builder.rs:213-215 | some pair holds a NUL exactly when one of the front does or the last does |
| ContainerBuilders.EnvAfterLast | src/container/builder.rs:213-215 | the last pair is set on what the others left |
| ContainerBuilders.SetKeepsCStrings | src/container/builder.rs:274-284 | setting a C string keeps every entry a C string |
| ContainerBuilders.RemoveKeepsCStrings | src/container/builder.rs:264-272 | removing an entry keeps the others C strings |
| ContainerBuilders.SpawnOutcome | src/container/builder.rs:97-130 | `spawn` fails with the argument error exactly when one was recorded, and with NoEntryPoint exactly when the entrypoint and the command are empty; otherwise the command line is the entrypoint followed by the command, with the working directory, the environment and the resolved program |
| ContainerBuilders.ResolveSearch | src/container/builder.rs:107-120 | a name with a slash, or no `PATH` value, leaves the name; otherwise the first entry whose candidate opens wins, and with none the name stays |
| ContainerBuilders.SplitPartsOmit | src/container/builder.rs:110 | a byte missing from a sequence is missing from every part of its split |
| ContainerBuilders.ResolvedIsCString | src/container/builder.rs:115 | the resolved program is a C string whenever the settings are, so its `CString::new` cannot fail |
| ContainerBuilders.ArgsAppend | src/container/builder.rs:133-156 | arguments that are all C strings are appended as a whole to the override |
| ContainerBuilders.ArgsAllRefused | src/container/builder.rs:101-154 | while no argument is accepted the override stays absent, so the image's command still runs |
| ContainerBuilders.EnvsLastWins | src/container/builder.rs:207-217 | the last pair given to `envs` for a key decides its value |
| ImageErrors.Errno | src/errors.rs:83-95 | every filesystem error is reported as a positive Linux error number |
| ImageErrors.ErrnoDistinct | src/errors.rs:83-95 | two errors share a number exactly when they are the same or are the two "no such entry" errors |
| VfsNodes.GetINode | src/filesystem/vfs.rs:122-130 | the node exactly when the number is within the vector and its slot is filled; otherwise UnallocNode |
| VfsNodes.DirectoryINode | src/filesystem/vfs.rs:287-302 | a directory whose only entry is `.` naming itself, with mode 0755 and one link |
| VfsNodes.Reset | src/filesystem/vfs.rs:79-84 | 1000 path segments and 50 symbolic links |
| VfsNodes.Parent | src/filesystem/vfs.rs:360 | no parent exactly for the empty path or one that ends at the root; otherwise every component but the last |
| VfsNodes.FileName | src/filesystem/vfs.rs:367-370 | the last component exactly when the path is not empty and it is a normal name |
| VfsResolve.TakePathSegment | src/filesystem/vfs.rs:86-93 | succeeds exactly when a segment is left, taking one; otherwise PathSegmentLimitExceeded |
| VfsResolve.TakeSymbolicLink | src/filesystem/vfs.rs:95-102 | succeeds exactly when a link is left, taking one; otherwise SymbolicLinkLimitExceeded |
| VfsResolve.SegmentLimits | src/filesystem/vfs.rs:151 | a segment pays exactly one unit when one is left, and fails with the limit error and pays nothing otherwise |
| VfsResolve.Symlinks | src/filesystem/vfs.rs:132-143 | following links never gives back limits |
| VfsResolve.Path | src/filesystem/vfs.rs:174-203 | resolving a path never gives back limits |
| VfsResolve.Rest | src/filesystem/vfs.rs:188-191 | resolving the further components never gives back limits |
| VfsResolve.SegmentCases | src/filesystem/vfs.rs:145-172 | `/` is the root; otherwise UnallocNode for an empty slot, DirectoryExpected for a node that is no directory, NotFound for a missing name, and the entry found |
| VfsResolve.EmptyPath | src/filesystem/vfs.rs:194-199 | an empty path is the starting directory, and costs nothing |
| VfsResolve.LastNotFollowed | src/filesystem/vfs.rs:180-193 | a one-component path is just that lookup: a link it names is not followed |
| VfsResolve.BetweenFollowed | src/filesystem/vfs.rs:188-191 | between two components the links the first names are followed, then the second is looked up |
| VfsResolve.SelfLinkLoops | src/filesystem/vfs.rs:132-143 | a link that names itself ends in SymbolicLinkLimitExceeded, reported as ELOOP |
| VfsResolve.SelfLinkFromReset | src/filesystem/vfs.rs:132-215 | with fresh limits a self-naming link always ends in the link limit error |
| VfsResolve.NotALink | src/filesystem/vfs.rs:137 | an entry that is not a link is left as it is |
| VfsResolve.OpenRoot | src/filesystem/vfs.rs:205-207 | when the root is a directory, opening `/` gives the root |
| VfsWrite.SetNode | src/filesystem/vfs.rs:282-285 | the slot holds the node and every other slot is unchanged |
| VfsWrite.Append | src/filesystem/vfs.rs:266-285 | one new slot at the end holding the node, no directory lost |
| VfsWrite.Incref | src/filesystem/vfs.rs:304-313 | succeeds exactly when the node exists and its count is below the top of `u64`, adding one link; otherwise UnallocNode or INodeRefCountError and nothing changes |
| VfsWrite.Decref | src/filesystem/vfs.rs:315-324 | succeeds exactly when the node exists and its count is positive, taking one link; otherwise UnallocNode or INodeRefCountError and nothing changes |
| VfsWrite.SetEntry | src/filesystem/vfs.rs:334 | the directory's entries with one name set, its metadata kept |
| VfsWrite.AddChild | src/filesystem/vfs.rs:326-341 | on success the directory maps the name to the child; the vector keeps its length and no directory is lost |
| VfsWrite.AllocChild | src/filesystem/vfs.rs:343-353 | the vector grows by exactly one slot, the new directory's number |
| VfsWrite.CreateSegment | src/filesystem/vfs.rs:473-488 | the vector only grows and no directory is lost |
| VfsWrite.CreatePath | src/filesystem/vfs.rs:490-510 | the vector only grows and no directory is lost |
| VfsWrite.CreateRest | src/filesystem/vfs.rs:499-502 | the vector only grows and no directory is lost |
| VfsWrite.CreateParent | src/filesystem/vfs.rs:355-371 | on success the name is the path's file name, and the directory is the working directory when there is no parent |
| VfsWrite.WriteDirectoryMetadata | src/filesystem/vfs.rs:373-384 | on success some directory holds the new metadata; no directory is lost |
| VfsWrite.WriteNodeFile | src/filesystem/vfs.rs:386-393 | no directory is lost |
| VfsWrite.WriteHardlink | src/filesystem/vfs.rs:438-447 | no directory is lost |
| VfsWrite.AddChildLinks | src/filesystem/vfs.rs:326-341 | adding an entry sets it; the child gains a link unless it was already there, and a different child that was there loses one |
| VfsWrite.AddChildNotDirectory | src/filesystem/vfs.rs:332-336 | a parent that is no directory refuses the entry, yet the child keeps the link it was given |
| VfsWrite.AllocChildShape | src/filesystem/vfs.rs:343-353 | a new child directory has `.` and `..` entries and two links, is entered in its parent, which gains a link, and nothing else changes |
| VfsWrite.AllocChildLinked | src/filesystem/vfs.rs:343-353 | one more directory keeps every newly made directory linked to itself and an earlier one |
| VfsWrite.CreateSegmentLinked | src/filesystem/vfs.rs:473-488 | a created segment keeps the new directories linked |
| VfsWrite.CreateRestLinked | src/filesystem/vfs.rs:499-502 | creating along the further components keeps the new directories linked |
| VfsWrite.CreatePathLinked | src/filesystem/vfs.rs:490-510 | every directory `resolve_or_create_path` made has its `.` entry and a `..` entry naming an earlier directory |
| VfsWrite.FoundNotCreated | src/filesystem/vfs.rs:480-481 | a name that is found is not created and the inodes stay as they are |
| VfsWrite.MissingCreated | src/filesystem/vfs.rs:482-485 | a missing name in a directory becomes a new directory entered there, with `.` and `..` |
| VfsWrite.WriteNodeFileEntry | src/filesystem/vfs.rs:386-393 | a written node is in a new slot at the end, and its name in the directory the parent path resolves or is created to names that slot |
| VfsWrite.WriteHardlinkEntry | src/filesystem/vfs.rs:438-447 | a written hard link is entered under its name, in the directory the parent path resolves or is created to, naming the node the target resolves to |
| VfsFilesystem.Limits.Reset | src/filesystem/vfs.rs:79-84 | the counters hold the full allowance |
| VfsFilesystem.Limits.TakePathSegment | src/filesystem/vfs.rs:86-93 | the counters and the result are those of taking one segment |
| VfsFilesystem.Limits.TakeSymbolicLink | src/filesystem/vfs.rs:95-102 | the counters and the result are those of taking one link |
| VfsFilesystem.Filesystem.constructor | src/filesystem/vfs.rs:106-115 | the root is slot 0, holding a fresh directory with only `.` |
| VfsFilesystem.Filesystem.Writer | src/filesystem/vfs.rs:117-120 | a new writer on this filesystem, working in the root |
| VfsFilesystem.Filesystem.ResolvePathSegment | src/filesystem/vfs.rs:145-172 | the result and the limits left are those of one segment's lookup |
| VfsFilesystem.Filesystem.ResolveSymlinks | src/filesystem/vfs.rs:132-143 | the loop gives the result and limits of following the links |
| VfsFilesystem.Filesystem.ResolvePath | src/filesystem/vfs.rs:174-203 | the loop gives the result and limits of resolving the path |
| VfsFilesystem.Filesystem.OpenAt | src/filesystem/vfs.rs:209-219 | opens what the path resolves to from the root with fresh limits, following a final link |
| VfsFilesystem.Filesystem.OpenRoot | src/filesystem/vfs.rs:205-207 | opening `/` gives the root, so the `unwrap` cannot fail |
| VfsFilesystem.Filesystem.VFileStat | src/filesystem/vfs.rs:221-226 | the file's metadata exactly when its slot is filled; otherwise NotFound |
| VfsFilesystem.Filesystem.IsDirectoryFile | src/filesystem/vfs.rs:254-262 | true exactly when the slot holds a directory |
| VfsFilesystem.Filesystem.VFileSource | src/filesystem/vfs.rs:228-252 | an empty file, a stored file or a factory is what gets opened; an empty slot is NotFound and any other node FileExpected |
| VfsFilesystem.VFSWriter.constructor | src/filesystem/vfs.rs:117-120 | the writer works on the filesystem, in its root |
| VfsFilesystem.VFSWriter.AllocInodeNumber | src/filesystem/vfs.rs:266-270 | a new empty slot at the end, whose number is returned |
| VfsFilesystem.VFSWriter.PutInode | src/filesystem/vfs.rs:282-285 | the empty slot is filled with the node |
| VfsFilesystem.VFSWriter.PutDirectory | src/filesystem/vfs.rs:287-302 | the empty slot is filled with a fresh directory |
| VfsFilesystem.VFSWriter.InodeIncref | src/filesystem/vfs.rs:304-313 | the filesystem and result are those of adding a link |
| VfsFilesystem.VFSWriter.InodeDecref | src/filesystem/vfs.rs:315-324 | the filesystem and result are those of taking a link |
| VfsFilesystem.VFSWriter.AddChildToDirectory | src/filesystem/vfs.rs:326-341 | the filesystem and result are those of adding the entry |
| VfsFilesystem.VFSWriter.AllocChildDirectory | src/filesystem/vfs.rs:343-353 | the filesystem and result are those of making the child directory |
| VfsFilesystem.VFSWriter.ResolveOrCreatePathSegment | src/filesystem/vfs.rs:473-488 | the filesystem, limits and result are those of the segment with creation |
| VfsFilesystem.VFSWriter.ResolveOrCreatePath | src/filesystem/vfs.rs:490-510 | the loop gives the filesystem, limits and result of the path with creation |
| VfsFilesystem.VFSWriter.ResolveOrCreateParent | src/filesystem/vfs.rs:355-371 | the filesystem, limits and result are those of finding the new entry's directory and name |
| VfsFilesystem.VFSWriter.WriteDirectoryMetadata | src/filesystem/vfs.rs:373-384 | the filesystem and result are those of setting the directory's metadata, and a root directory stays one |
| VfsFilesystem.VFSWriter.WriteNodeFile | src/filesystem/vfs.rs:386-393 | the filesystem and result are those of writing the node, and a root directory stays one |
| VfsFilesystem.VFSWriter.WriteStorageFile | src/filesystem/vfs.rs:395-409 | writes a stored file for a key and an empty file for none |
| VfsFilesystem.VFSWriter.WriteFileFactory | src/filesystem/vfs.rs:411-418 | writes a file factory node |
| VfsFilesystem.VFSWriter.WriteUnixStreamFactory | src/filesystem/vfs.rs:420-427 | writes a socket factory node |
| VfsFilesystem.VFSWriter.WriteSymlink | src/filesystem/vfs.rs:429-436 | writes a link node keeping its target as given |
| VfsFilesystem.VFSWriter.WriteHardlink | src/filesystem/vfs.rs:438-447 | the filesystem and result are those of entering the resolved target under the new name |
| VfsFilesystem.VFSWriter.WriteFifo | src/filesystem/vfs.rs:449-451 | writes a FIFO node |
| VfsFilesystem.VFSWriter.WriteCharDevice | src/filesystem/vfs.rs:453-461 | writes a character device node with its numbers |
| VfsFilesystem.VFSWriter.WriteBlockDevice | src/filesystem/vfs.rs:463-471 | writes a block device node with its numbers |

## Left out

- The ptrace and remote-syscall machinery, the async executor, seccomp, the network clients, disk storage and SHA-256 hashing are left out. They are I/O and concurrency, not logic that can be stated on values.
- The older duplicate copies of the core (`src/image.rs`, `sand/src/protocol.rs`, `src/container.rs`, the runtime crate) are not part of this model.
- `sand/src/process/table.rs` does not compile and is not part of this model.
- Floating point, `char`, `str` and byte slices in the codec: modelled only as the Unimplemented error they give. Maps are serialized; reading one back is Unimplemented in `protocol/src/de.rs:154-156`, and so it is in the model.
- Serde's derive machinery is left out. Messages are modelled as values of the codec's value algebra, with their shapes written out by hand.
- `ImageError` has no conversion from `NulError` in `src/errors.rs`, yet `src/container/builder.rs` uses `?` on `CString::new`. The model treats an argument with a NUL byte as refused.
- `src/container/builder.rs:57` uses `VFSError::IO`, which `src/errors.rs` does not define. That path is left out.
- The digest test at `src/image/tests.rs:160` expects uppercase hex to parse, but the pattern in `src/image/digest.rs` accepts only lowercase. The model follows the code.
- ImageRepository.Parse: the component predicate is proved to contain the language of the component pattern (`RunIsComponent`, `ExtendComponent`). The converse, that every string it accepts matches the pattern, is not proved.
- `add_child_to_directory` increments the child's link count before it checks that the parent is a directory. The model keeps that behaviour, and `VfsWrite.AddChildNotDirectory` states it.
- The root directory has no `..` entry, so resolving `..` at the root gives NotFound. This is modelled as written.
- `open_at` ignores its `at_dir` argument and always resolves from the root. This is modelled as written.
- Paths are modelled as sequences of components, after `Path::iter`. The parsing of path strings into components is left out.
- `Path::parent` and `Path::file_name` are modelled only for the component shapes the writer passes them.
- File and socket factories are closures in the source. The model keeps only an identity number for each.
- `vfile_storage` actually opens `/dev/null`, a storage part, or calls a factory. That is I/O; `VfsFilesystem.Filesystem.VFileSource` models only the choice among them.
- `Arc` sharing and `Arc::make_mut` copy-on-write of the filesystem are not modelled.
- TarEntries.Metadata: the stat is taken as a given filesystem `Stat`, for three reasons.
  - `src/filesystem/tar.rs:72-91` builds a protocol `FileStat` with fields that struct does not have (`protocol/src/types.rs:23-25`).
  - The header field reads and their I/O errors are therefore left out.
  - This includes the `try_into` failures of uid, gid and size, which give TARFileError.
- The tar crate's header parsing, the archive's mmap, and the storage lookup in `extract` are left out. The loop's offset arithmetic and the storage-key range it computes are modelled.
- TarEntries.ExtractKeys: computes only the keys of the entries, so the first error it stops at is the first key error. The source also calls `extract_file_metadata` in each pass (`src/filesystem/tar.rs:44`) and stops at its first error; that per-entry step is modelled on its own by `TarEntries.ExtractFileMetadata`, not composed into the loop.
- Tar entries of any other kind are only logged by the source. The model skips them.
- ContainerBuilders.ContainerBuilder.New does not write the three standard-stream factories at `/proc/1/fd/0-2`, because they are async closures.
- `Container::exec` and the async spawn are left out.
- `MemProtect::map_flags` is left out: `MAP_SHARED` is not defined in `sand/src/abi.rs`.
- `MemLayout::install` (a `prctl` call) is left out.
- The stack builder's `push_remote_bytes`, `push_random_bytes` and `push_bytes`, and its memfd and mmap calls, are left out. They write into another process.
- `VPage::randomize`, `task_max`, `task_unmapped_base` and `task_dyn_base` read the kernel's randomness and limits, and are left out.
- The `/proc/maps` iterator `KernelMemIterator` and `KernelMemAreas::locate` read files, and are left out.
- Parser.U64Dec: the digit accumulation wraps modulo 2^64, as a release build does; the overflow panic of a debug build is not modelled.
- The `ByteReader::from_sysfd` constructor reads a file descriptor, and is left out.
- The async helpers in `sand/src/syscall/result.rs` are left out.
- The `BPF_*` opcode constants in `Bpf` are the values of Linux's `linux/bpf_common.h` and `linux/filter.h`. `sand/src/bpf.rs:8` imports them from `crate::abi`, but `sand/src/abi.rs` does not define them; their values are taken from Linux.
- EnvVars.SetIn: matches keys through the corrected split, so an entry `KEY` with no `=` is replaced; the source as written appends beside it. `EnvVars.SetInAsWritten` models the source's behaviour and `EnvVars.AsWrittenSetDuplicates` shows the difference.
- EnvVars.RemoveIn: matches keys through the corrected split, so an entry `KEY` with no `=` is removed; the source as written keeps it. `EnvVars.RemoveInAsWritten` models the source's behaviour and `EnvVars.AsWrittenRemoveKeeps` shows the difference.
- EnvVars.EnvList.Set: is `EnvVars.SetIn` in place, with the same corrected match for an entry with no `=`.
- EnvVars.EnvList.Remove: is `EnvVars.RemoveIn` in place, with the same corrected match for an entry with no `=`.
- EnvVars.EnvList.Get: finds an entry with no `=` by its key, where the source as written does not (`EnvVars.AsWrittenBareEntryLost`).
- ContainerBuilders.ContainerBuilder.Env: sets through `EnvVars.EnvList.Set`, so it uses the corrected split.
- ContainerBuilders.ContainerBuilder.Envs: sets each pair through `EnvVars.EnvList.Set`, so it uses the corrected split.
- ContainerBuilders.ContainerBuilder.EnvRemove: removes through `EnvVars.EnvList.Remove`, so it uses the corrected split.
- ContainerBuilders.ContainerBuilder.Spawn: reads `PATH` through the corrected lookup, so with the environment `PATH`, `PATH=/bin` it searches no directories and keeps the name as given, where the source as written skips the bare entry and searches `/bin` (`EnvVars.AsWrittenBareSkipped`). When every entry has an `=` the two agree (`EnvVars.AsWrittenAgreesWithValues`, `EnvVars.FirstMatchAgrees`).

## Findings

| source | as written | input that shows it | evidently intended | confidence | as-written member | corrected member |
|---|---|---|---|---|---|---|
| sand/src/process.rs:49-61 | `unused_index` loops while the slot `is_none()`, so it stops at the first used slot and returns an empty one only when the whole table is empty | a table whose slot 0 is used and all others empty: a second allocation finds no slot | the first empty slot, searching circularly from the hint | not executed | ProcessTables.ProcessTable.UnusedIndexAsWritten, ProcessTables.ProcessTable.AllocateAsWritten, ProcessTables.AsWrittenSecondAllocationFails | ProcessTables.ProcessTable.UnusedIndex, ProcessTables.ProcessTable.Allocate, ProcessTables.SecondAllocationSucceeds |
| src/image/registry.rs:54, src/image/name.rs:219-222 | `ImageName::parse` accepts any run of port digits, and `Registry::parse` then panics when it unwraps the `u16` parse | `localhost:65536/x` | a port above 65535 refused as an invalid reference | not executed | ImageRegistry.Parse, ImageNames.RegistryOf, ImageNames.AsWrittenPortOverflow | ImageRegistry.ParseChecked, ImageNames.ParseChecked, ImageNames.CheckedRegistryReadable, ImageNames.CheckedPortOverflow |
| src/container/builder.rs:236-242 | `split` searches `to_bytes_with_nul`, so an entry with no `=` keeps the trailing NUL in its key | the entry `PATH`: `get("PATH")` does not find it | the key without the NUL, as for entries with a value | not executed | EnvVars.SplitEntryAsWrittenBare, EnvVars.AsWrittenBareEntryLost, EnvVars.AsWrittenSplitJoinBare, EnvVars.SetInAsWritten, EnvVars.RemoveInAsWritten, EnvVars.AsWrittenSetDuplicates, EnvVars.AsWrittenRemoveKeeps, EnvVars.AsWrittenBareSkipped | EnvVars.SplitEntryParts, EnvVars.EntryRoundTrip, EnvVars.EnvList.Get, EnvVars.SetIn, EnvVars.RemoveIn, EnvVars.EnvList.Set, EnvVars.EnvList.Remove, ContainerBuilders.ContainerBuilder.Env, ContainerBuilders.ContainerBuilder.Envs, ContainerBuilders.ContainerBuilder.EnvRemove, ContainerBuilders.ContainerBuilder.Spawn |
