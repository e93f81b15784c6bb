/**
 * Moving messages through an `IPCBuffer`: `push_back` runs the serializer,
 * which writes into the queues as it goes, and `pop_front` runs the
 * deserializer, which pops as it goes and is rewound when it fails.
 */
module IpcTransfer {
  import opened Wrappers
  import opened Ints
  import opened IpcBuffer
  import opened IpcCodec

  /**
   * How many of the writes `es` the queues accept when they start at end
   * positions `bEnd` and `fEnd`: the first write that does not fit fails with
   * BufferFull, and the serializer stops there.
   */
  function Accepted(bEnd: nat, fEnd: nat, es: seq<Emit>): (n: nat)
    ensures n <= |es|
    decreases |es|
  {
    if es == [] then 0
    else
      match es[0]
      case EmitBytes(data) => if bEnd + |data| > BYTES_MAX then 0 else 1 + Accepted(bEnd + |data|, fEnd, es[1..])
      case EmitFile(_) => if fEnd >= FILES_MAX then 0 else 1 + Accepted(bEnd, fEnd + 1, es[1..])
  }

  /** The result `push_back` returns for the encoding `e`. */
  function PushResult(bEnd: nat, fEnd: nat, e: Encoding): Result<(), Error>
  {
    if Accepted(bEnd, fEnd, e.emits) < |e.emits| then Err(BufferFull)
    else if e.err.Some? then Err(e.err.value)
    else Ok(())
  }

  /** Everything is accepted when the whole output fits in the free space of both queues. */
  lemma {:induction false} AcceptedWhenFits(bEnd: nat, fEnd: nat, es: seq<Emit>)
    requires bEnd + |BytesOf(es)| <= BYTES_MAX && fEnd + |FilesOf(es)| <= FILES_MAX
    ensures Accepted(bEnd, fEnd, es) == |es|
    decreases |es|
  {
    if es != [] {
      OutputOfAppend([es[0]], es[1..]);
      OutputOfOne(es[0]);
      assert [es[0]] + es[1..] == es;
      match es[0]
      case EmitBytes(data) => AcceptedWhenFits(bEnd + |data|, fEnd, es[1..]);
      case EmitFile(_) => AcceptedWhenFits(bEnd, fEnd + 1, es[1..]);
    }
  }

  /** An accepted write only advances the queue ends. */
  lemma AcceptedStep(bEnd: nat, fEnd: nat, es: seq<Emit>, i: nat)
    requires i < |es|
    ensures (es[i].EmitBytes? && bEnd + |es[i].data| > BYTES_MAX) || (es[i].EmitFile? && fEnd >= FILES_MAX) ==>
      Accepted(bEnd, fEnd, es[i..]) == 0
    ensures es[i].EmitBytes? && bEnd + |es[i].data| <= BYTES_MAX ==>
      Accepted(bEnd, fEnd, es[i..]) == 1 + Accepted(bEnd + |es[i].data|, fEnd, es[i + 1..])
    ensures es[i].EmitFile? && fEnd < FILES_MAX ==>
      Accepted(bEnd, fEnd, es[i..]) == 1 + Accepted(bEnd, fEnd + 1, es[i + 1..])
  {
    assert es[i..][0] == es[i] && es[i..][1..] == es[i + 1..];
  }

  lemma OutputOfPrefix(es: seq<Emit>, i: nat)
    requires i < |es|
    ensures BytesOf(es[..i + 1]) == BytesOf(es[..i]) + (if es[i].EmitBytes? then es[i].data else [])
    ensures FilesOf(es[..i + 1]) == FilesOf(es[..i]) + (if es[i].EmitFile? then [es[i].file] else [])
  {
    assert es[..i + 1] == es[..i] + [es[i]];
    OutputOfAppend(es[..i], [es[i]]);
    OutputOfOne(es[i]);
  }

  /** One write of the serializer: an `extend_bytes`/`push_back_byte` or a `push_back_file`. */
  method Write(buf: IPCBuffer, e: Emit) returns (r: Result<(), Error>)
    requires buf.Valid()
    modifies buf.bytes, buf.bytes.arr, buf.files, buf.files.arr
    ensures buf.Valid()
    ensures r.Err? <==> Accepted(old(buf.bytes.end), old(buf.files.end), [e]) == 0
    ensures r.Err? ==>
      r.error == BufferFull && buf.Bytes() == old(buf.Bytes()) && buf.Files() == old(buf.Files())
      && buf.bytes.end == old(buf.bytes.end) && buf.files.end == old(buf.files.end)
    ensures r.Ok? ==>
      buf.Bytes() == old(buf.Bytes()) + BytesOf([e]) && buf.Files() == old(buf.Files()) + FilesOf([e])
      && buf.bytes.end == old(buf.bytes.end) + |BytesOf([e])| && buf.files.end == old(buf.files.end) + |FilesOf([e])|
  {
    OutputOfOne(e);
    match e
    case EmitBytes(data) =>
      r := buf.ExtendBytes(data);
    case EmitFile(f) =>
      r := buf.PushBackFile(f);
  }

  /** Accepting the first `i + 1` writes is accepting the first `i`, then write `i` from the ends they leave. */
  lemma {:induction false} AcceptedPrefix(bEnd: nat, fEnd: nat, es: seq<Emit>, i: nat)
    requires i < |es| && Accepted(bEnd, fEnd, es) >= i
    ensures Accepted(bEnd, fEnd, es) > i <==>
      Accepted(bEnd + |BytesOf(es[..i])|, fEnd + |FilesOf(es[..i])|, [es[i]]) == 1
    decreases i
  {
    OutputOfOne(es[0]);
    if i == 0 {
      assert es[..0] == [];
    } else {
      assert es[1..][..i - 1] == es[1..i];
      assert es[..i] == [es[0]] + es[1..i];
      OutputOfAppend([es[0]], es[1..i]);
      match es[0]
      case EmitBytes(data) => AcceptedPrefix(bEnd + |data|, fEnd, es[1..], i - 1);
      case EmitFile(_) => AcceptedPrefix(bEnd, fEnd + 1, es[1..], i - 1);
    }
  }

  /** Performs the writes `es` in order, stopping at the first that does not fit. */
  method WriteAll(buf: IPCBuffer, es: seq<Emit>) returns (r: Result<(), Error>)
    requires buf.Valid()
    modifies buf.bytes, buf.bytes.arr, buf.files, buf.files.arr
    ensures buf.Valid()
    ensures var n := Accepted(old(buf.bytes.end), old(buf.files.end), es);
            buf.Bytes() == old(buf.Bytes()) + BytesOf(es[..n]) && buf.Files() == old(buf.Files()) + FilesOf(es[..n])
            && (r.Err? <==> n < |es|) && (r.Err? ==> r.error == BufferFull)
  {
    ghost var b0, f0 := buf.Bytes(), buf.Files();
    ghost var bEnd0, fEnd0 := buf.bytes.end, buf.files.end;
    var i := 0;
    while i < |es|
      invariant 0 <= i <= |es| && buf.Valid() && i <= Accepted(bEnd0, fEnd0, es)
      invariant buf.Bytes() == b0 + BytesOf(es[..i]) && buf.Files() == f0 + FilesOf(es[..i])
      invariant buf.bytes.end == bEnd0 + |BytesOf(es[..i])| && buf.files.end == fEnd0 + |FilesOf(es[..i])|
    {
      WriteAllStep(bEnd0, fEnd0, es, i, b0, f0);
      var w := Write(buf, es[i]);
      if w.Err? {
        return w;
      }
      i := i + 1;
    }
    assert es[..i] == es;
    r := Ok(());
  }

  /** One turn of `WriteAll`: whether write `i` is accepted decides the count, and the output grows by that write. */
  lemma WriteAllStep(bEnd0: nat, fEnd0: nat, es: seq<Emit>, i: nat, b0: seq<u8>, f0: seq<SysFd>)
    requires i < |es| && Accepted(bEnd0, fEnd0, es) >= i
    ensures var e, bEnd, fEnd := es[i], bEnd0 + |BytesOf(es[..i])|, fEnd0 + |FilesOf(es[..i])|;
      && (Accepted(bEnd, fEnd, [e]) == 0 ==> Accepted(bEnd0, fEnd0, es) == i)
      && (Accepted(bEnd, fEnd, [e]) != 0 ==> i + 1 <= Accepted(bEnd0, fEnd0, es))
      && (b0 + BytesOf(es[..i])) + BytesOf([e]) == b0 + BytesOf(es[..i + 1])
      && (f0 + FilesOf(es[..i])) + FilesOf([e]) == f0 + FilesOf(es[..i + 1])
      && |BytesOf(es[..i + 1])| == |BytesOf(es[..i])| + |BytesOf([e])|
      && |FilesOf(es[..i + 1])| == |FilesOf(es[..i])| + |FilesOf([e])|
  {
    AcceptedPrefix(bEnd0, fEnd0, es, i);
    OutputOfPrefix(es, i);
    OutputOfOne(es[i]);
    AppendAssoc(b0, BytesOf(es[..i]), BytesOf([es[i]]));
    AppendAssoc(f0, FilesOf(es[..i]), FilesOf([es[i]]));
  }

  /**
   * `IPCBuffer::push_back`: serialize `v` into the buffer. Writes made before a
   * failure stay in the queues: only the accepted prefix of the output is
   * appended, and the result says why the serializer stopped.
   */
  method PushBack(buf: IPCBuffer, v: Value) returns (r: Result<(), Error>)
    requires buf.Valid() && WellFormed(v)
    modifies buf.bytes, buf.bytes.arr, buf.files, buf.files.arr
    ensures buf.Valid()
    ensures var es := Encode(v).emits;
            var n := Accepted(old(buf.bytes.end), old(buf.files.end), es);
            buf.Bytes() == old(buf.Bytes()) + BytesOf(es[..n]) && buf.Files() == old(buf.Files()) + FilesOf(es[..n])
    ensures r == PushResult(old(buf.bytes.end), old(buf.files.end), Encode(v))
  {
    var e := Encode(v);
    ghost var n := Accepted(buf.bytes.end, buf.files.end, e.emits);
    r := WriteAll(buf, e.emits);
    if r.Err? {
      assert n < |e.emits| && r == Err(BufferFull);
    } else if e.err.Some? {
      r := Err(e.err.value);
    } else {
      r := Ok(());
    }
  }

  /** A message whose output fits is pushed whole. */
  lemma PushFits(bEnd: nat, fEnd: nat, v: Value)
    requires WellFormed(v) && Encodable(v)
    requires bEnd + |EncBytes(v)| <= BYTES_MAX && fEnd + |EncFiles(v)| <= FILES_MAX
    ensures Accepted(bEnd, fEnd, Encode(v).emits) == |Encode(v).emits|
    ensures PushResult(bEnd, fEnd, Encode(v)) == Ok(())
  {
    AcceptedWhenFits(bEnd, fEnd, Encode(v).emits);
    EncodeSucceedsIff(v);
  }

  /** The method result agrees with the reference decoder, and on success the queues hold what it leaves. */
  ghost predicate Agrees<T>(r: Result<T, Error>, d: Result<Decoded<T>, Error>, bs: seq<u8>, fs: seq<SysFd>)
  {
    (r.Ok? <==> d.Ok?)
    && (r.Ok? ==> r.value == d.value.value && bs == d.value.bytes && fs == d.value.files)
    && (r.Err? ==> r.error == d.error)
  }

  /** The deserializer reading one `ty`, popping from the queues as it goes. */
  method ReadValue(buf: IPCBuffer, ty: Ty) returns (r: Result<Value, Error>)
    requires buf.Valid()
    modifies buf.bytes, buf.files
    ensures buf.Valid() && buf.bytes.end == old(buf.bytes.end) && buf.files.end == old(buf.files.end)
    ensures Agrees(r, Decode(ty, old(buf.Bytes()), old(buf.Files())), buf.Bytes(), buf.Files())
    decreases ty, 1
  {
    ghost var b0, f0 := buf.Bytes(), buf.Files();
    match ty
    case TInt(k) =>
      var front := buf.PopFrontBytes(k.Width().Bytes());
      if front.Err? {
        return Err(front.error);
      }
      assert b0[..k.Width().Bytes()] == front.value && b0[k.Width().Bytes()..] == buf.Bytes();
      r := Ok(Int(k, IntFromBytes(k, front.value)));
    case TBool =>
      var tag := buf.PopFrontByte();
      if tag.Err? {
        return Err(tag.error);
      }
      assert b0[1..] == buf.Bytes();
      if tag.value == 0 {
        r := Ok(Bool(false));
      } else if tag.value == 1 {
        r := Ok(Bool(true));
      } else {
        r := Err(InvalidValue);
      }
    case TUnit =>
      r := Ok(Unit);
    case TOption(t) =>
      var tag := buf.PopFrontByte();
      if tag.Err? {
        return Err(tag.error);
      }
      assert b0[1..] == buf.Bytes();
      if tag.value == 0 {
        r := Ok(NoneV);
      } else if tag.value == 1 {
        var inner := ReadValue(buf, t);
        r := if inner.Ok? then Ok(SomeV(inner.value)) else inner;
      } else {
        r := Err(InvalidValue);
      }
    case TSysFd =>
      var file := buf.PopFrontFile();
      if file.Err? {
        return Err(file.error);
      }
      assert f0[1..] == buf.Files();
      r := Ok(Fd(file.value.fd));
    case TTuple(ts) =>
      var items := ReadTuple(buf, ts);
      r := if items.Ok? then Ok(Tuple(items.value)) else Err(items.error);
    case TSeq(_) =>
      r := Err(Unimplemented);
    case TMap(_, _) =>
      r := Err(Unimplemented);
    case TEnum(vars) =>
      var index := buf.PopFrontByte();
      if index.Err? {
        return Err(index.error);
      }
      assert b0[1..] == buf.Bytes();
      if index.value >= |vars| {
        return Err(Deserialize);
      }
      var payload := ReadValue(buf, vars[index.value]);
      r := if payload.Ok? then Ok(Variant(index.value, payload.value)) else payload;
    case TOther(_) =>
      r := Err(Unimplemented);
  }

  /** Prepends decoded items to the result of decoding the remaining fields. */
  function AfterItems(items: seq<Value>, d: Result<Decoded<seq<Value>>, Error>): Result<Decoded<seq<Value>>, Error>
  {
    match d
    case Ok(x) => Ok(Decoded(items + x.value, x.bytes, x.files))
    case Err(e) => Err(e)
  }

  lemma AfterItemsAppend(a: seq<Value>, b: seq<Value>, d: Result<Decoded<seq<Value>>, Error>)
    ensures AfterItems(a, AfterItems(b, d)) == AfterItems(a + b, d)
  {
    if d.Ok? {
      assert a + (b + d.value.value) == (a + b) + d.value.value;
    }
  }

  lemma DecodeAllStep(ts: seq<Ty>, i: nat, bs: seq<u8>, fs: seq<SysFd>)
    requires i < |ts|
    ensures DecodeAll(ts[i..], bs, fs) ==
      match Decode(ts[i], bs, fs)
      case Err(e) => Err(e)
      case Ok(d) => AfterItems([d.value], DecodeAll(ts[i + 1..], d.bytes, d.files))
  {
    assert ts[i..][0] == ts[i] && ts[i..][1..] == ts[i + 1..];
  }

  /**
   * The tuple access of `deserialize_tuple`: a countdown `len` of the fields
   * still to read, one element per step, stopping at the first error.
   */
  method ReadTuple(buf: IPCBuffer, ts: seq<Ty>) returns (r: Result<seq<Value>, Error>)
    requires buf.Valid()
    modifies buf.bytes, buf.files
    ensures buf.Valid() && buf.bytes.end == old(buf.bytes.end) && buf.files.end == old(buf.files.end)
    ensures Agrees(r, DecodeAll(ts, old(buf.Bytes()), old(buf.Files())), buf.Bytes(), buf.Files())
    decreases ts, 0
  {
    ghost var whole := DecodeAll(ts, buf.Bytes(), buf.Files());
    var len := |ts|;
    var items: seq<Value> := [];
    assert ts[|ts| - len..] == ts;
    match DecodeAll(ts, buf.Bytes(), buf.Files()) {
      case Ok(x) => assert [] + x.value == x.value;
      case Err(_) =>
    }
    while len > 0
      invariant 0 <= len <= |ts| && |items| == |ts| - len
      invariant buf.Valid() && buf.bytes.end == old(buf.bytes.end) && buf.files.end == old(buf.files.end)
      invariant whole == AfterItems(items, DecodeAll(ts[|ts| - len..], buf.Bytes(), buf.Files()))
    {
      var i := |ts| - len;
      ghost var bs, fs := buf.Bytes(), buf.Files();
      DecodeAllStep(ts, i, bs, fs);
      len := len - 1;
      var item := ReadValue(buf, ts[i]);
      if item.Err? {
        return Err(item.error);
      }
      AfterItemsAppend(items, [item.value], DecodeAll(ts[i + 1..], buf.Bytes(), buf.Files()));
      items := items + [item.value];
    }
    assert ts[|ts|..] == [];
    assert items + [] == items;
    r := Ok(items);
  }

  /**
   * `IPCBuffer::pop_front`: read one `ty`. A failed read rewinds both queues,
   * so a partial message is not consumed.
   */
  method PopFront(buf: IPCBuffer, ty: Ty) returns (r: Result<Value, Error>)
    requires buf.Valid()
    modifies buf.bytes, buf.files
    ensures buf.Valid()
    ensures Agrees(r, Decode(ty, old(buf.Bytes()), old(buf.Files())), buf.Bytes(), buf.Files())
    ensures r.Err? ==> buf.Bytes() == old(buf.Bytes()) && buf.Files() == old(buf.Files())
  {
    var savedBytes := buf.bytes.start;
    var savedFiles := buf.files.start;
    r := ReadValue(buf, ty);
    if r.Err? {
      buf.bytes.start := savedBytes;
      buf.files.start := savedFiles;
    }
  }
}
