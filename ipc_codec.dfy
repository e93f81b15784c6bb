/**
 * The IPC wire format: a compact, untagged, little-endian encoding of
 * serde-shaped values into the byte queue of an `IPCBuffer`, with file
 * descriptors routed to the file queue.
 *
 * `Value` is the serde data model as far as the serializer sees it, `Ty` is the
 * shape the deserializer is asked to read. Struct, tuple, tuple struct, array and
 * sequence values are all written as their fields in order with no length,
 * so they share one constructor. A map is written as each key followed by
 * its value, also with no length; reading one back is not implemented.
 */
module IpcCodec {
  import opened Wrappers
  import opened Ints
  import opened IpcBuffer

  datatype IntKind = U8 | I8 | U16 | I16 | U32 | I32 | U64 | I64 {
    function Width(): Width
    {
      match this
      case U8 => W8
      case I8 => W8
      case U16 => W16
      case I16 => W16
      case U32 => W32
      case I32 => W32
      case U64 => W64
      case I64 => W64
    }

    predicate Signed() { this in {I8, I16, I32, I64} }

    /** The values of the Rust type. */
    predicate Holds(n: int)
    {
      if Signed() then InSigned(n, Width()) else InUnsigned(n, Width())
    }
  }

  /** The kinds of serde data the IPC format does not implement. */
  datatype Unsupported = Char | Str | ByteSlice | F32 | F64

  /** One entry of a map, as `SerializeMap` is handed it. */
  datatype Entry = Entry(key: Value, value: Value)

  datatype Value =
    | Int(kind: IntKind, n: int)
    | Bool(b: bool)
    | Unit
    | NoneV
    | SomeV(inner: Value)
    /** The `SysFd@ser` tuple struct around one u32. */
    | Fd(fd: u32)
    /** A tuple, tuple struct, struct, array or sequence. */
    | Tuple(items: seq<Value>)
    /**
     * An enum variant: its index, then its payload, which is `Unit` for a unit
     * variant, the value itself for a newtype variant, and a `Tuple` of the
     * fields for a tuple or struct variant.
     */
    | Variant(index: u32, payload: Value)
    /** A map, its entries in the order the map yields them. */
    | Map(entries: seq<Entry>)
    | Other(what: Unsupported)

  datatype Ty =
    | TInt(kind: IntKind)
    | TBool
    | TUnit
    | TOption(some: Ty)
    | TSysFd
    /** A tuple, tuple struct, struct or fixed-size array, read field by field. */
    | TTuple(fields: seq<Ty>)
    /** A variable-length sequence, which the deserializer does not implement. */
    | TSeq(elem: Ty)
    /** An enum, with the payload type of each variant. */
    | TEnum(variants: seq<Ty>)
    /** A map, which the deserializer does not implement. */
    | TMap(keys: Ty, values: Ty)
    | TOther(what: Unsupported)

  /** Integer values fit their kinds: what the Rust types guarantee. */
  predicate WellFormed(v: Value)
  {
    match v
    case Int(k, n) => k.Holds(n)
    case SomeV(x) => WellFormed(x)
    case Tuple(items) => WellFormedAll(items)
    case Variant(_, payload) => WellFormed(payload)
    case Map(es) => WellFormedEntries(es)
    case _ => true
  }

  predicate WellFormedAll(vs: seq<Value>)
  {
    if vs == [] then true else WellFormed(vs[0]) && WellFormedAll(vs[1..])
  }

  predicate WellFormedEntries(es: seq<Entry>)
  {
    if es == [] then true else WellFormedEntry(es[0]) && WellFormedEntries(es[1..])
  }

  predicate WellFormedEntry(e: Entry)
  {
    WellFormed(e.key) && WellFormed(e.value)
  }

  /** `v` is a value of type `ty`. */
  predicate HasType(v: Value, ty: Ty)
  {
    match ty
    case TInt(k) => v.Int? && v.kind == k && k.Holds(v.n)
    case TBool => v.Bool?
    case TUnit => v.Unit?
    case TOption(t) => v.NoneV? || (v.SomeV? && HasType(v.inner, t))
    case TSysFd => v.Fd?
    case TTuple(ts) => v.Tuple? && HaveTypes(v.items, ts)
    case TSeq(t) => v.Tuple? && AllHaveType(v.items, t)
    case TEnum(vars) => v.Variant? && v.index < |vars| && HasType(v.payload, vars[v.index])
    case TMap(kt, vt) => v.Map? && EntriesHaveType(v.entries, kt, vt)
    case TOther(k) => v.Other? && v.what == k
  }

  predicate EntriesHaveType(es: seq<Entry>, kt: Ty, vt: Ty)
  {
    es == [] || (EntryHasType(es[0], kt, vt) && EntriesHaveType(es[1..], kt, vt))
  }

  predicate EntryHasType(e: Entry, kt: Ty, vt: Ty)
  {
    HasType(e.key, kt) && HasType(e.value, vt)
  }

  predicate HaveTypes(vs: seq<Value>, ts: seq<Ty>)
  {
    |vs| == |ts| && (vs == [] || (HasType(vs[0], ts[0]) && HaveTypes(vs[1..], ts[1..])))
  }

  predicate AllHaveType(vs: seq<Value>, t: Ty)
  {
    vs == [] || (HasType(vs[0], t) && AllHaveType(vs[1..], t))
  }

  /** The deserializer implements every part of `ty`. */
  predicate Decodable(ty: Ty)
  {
    match ty
    case TOption(t) => Decodable(t)
    case TTuple(ts) => AllDecodable(ts)
    case TEnum(vars) => AllDecodable(vars)
    case TSeq(_) => false
    case TMap(_, _) => false
    case TOther(_) => false
    case _ => true
  }

  predicate AllDecodable(ts: seq<Ty>)
  {
    ts == [] || (Decodable(ts[0]) && AllDecodable(ts[1..]))
  }

  /** A list of types is decodable when each of them is. */
  lemma {:induction false} AllDecodableEach(ts: seq<Ty>)
    requires forall i :: 0 <= i < |ts| ==> Decodable(ts[i])
    ensures AllDecodable(ts)
    decreases |ts|
  {
    if ts != [] {
      AllDecodableEach(ts[1..]);
    }
  }

  // ---------------------------------------------------------------------
  // Little-endian integers

  /** The `count` low bytes of `u`, least significant first. */
  function LeBytes(u: nat, count: nat): (bs: seq<u8>)
    ensures |bs| == count
  {
    if count == 0 then [] else [u % 0x100] + LeBytes(u / 0x100, count - 1)
  }

  /** The unsigned value of little-endian bytes. */
  function FromLe(bs: seq<u8>): (u: nat)
    ensures u < Pow256(|bs|)
  {
    if bs == [] then 0 else bs[0] + 0x100 * FromLe(bs[1..])
  }

  /** Reading back the bytes of a value that fits gives the value. */
  lemma {:induction false} FromLeBytes(u: nat, count: nat)
    requires u < Pow256(count)
    ensures FromLe(LeBytes(u, count)) == u
    decreases count
  {
    if count > 0 {
      var bs := LeBytes(u, count);
      assert bs[1..] == LeBytes(u / 0x100, count - 1);
      FromLeBytes(u / 0x100, count - 1);
    }
  }

  /** `to_le_bytes()` of an integer of the given kind. */
  function IntBytes(k: IntKind, n: int): (bs: seq<u8>)
    requires k.Holds(n)
    ensures |bs| == k.Width().Bytes()
  {
    LeBytes(ToUnsigned(n, k.Width()), k.Width().Bytes())
  }

  /** `from_le_bytes()` for the given kind. */
  function IntFromBytes(k: IntKind, bs: seq<u8>): (n: int)
    requires |bs| == k.Width().Bytes()
    ensures k.Holds(n)
  {
    var u := FromLe(bs);
    if k.Signed() then ToSigned(u, k.Width()) else u
  }

  lemma IntRoundTrip(k: IntKind, n: int)
    requires k.Holds(n)
    ensures IntFromBytes(k, IntBytes(k, n)) == n
  {
    FromLeBytes(ToUnsigned(n, k.Width()), k.Width().Bytes());
  }

  // ---------------------------------------------------------------------
  // Serialization

  /** One write the serializer makes: a run of bytes (one `extend` or `push_back_byte`) or one file. */
  datatype Emit = EmitBytes(data: seq<u8>) | EmitFile(file: SysFd)

  /** The writes a value produces, up to the first error, and that error if any. */
  datatype Encoding = Encoding(emits: seq<Emit>, err: Option<Error>)

  function BytesOf(es: seq<Emit>): seq<u8>
  {
    if es == [] then [] else (if es[0].EmitBytes? then es[0].data else []) + BytesOf(es[1..])
  }

  function FilesOf(es: seq<Emit>): seq<SysFd>
  {
    if es == [] then [] else (if es[0].EmitFile? then [es[0].file] else []) + FilesOf(es[1..])
  }

  lemma {:induction false} OutputOfAppend(a: seq<Emit>, b: seq<Emit>)
    ensures BytesOf(a + b) == BytesOf(a) + BytesOf(b)
    ensures FilesOf(a + b) == FilesOf(a) + FilesOf(b)
    decreases |a|
  {
    if a != [] {
      assert (a + b)[1..] == a[1..] + b;
      OutputOfAppend(a[1..], b);
    } else {
      assert a + b == b;
    }
  }

  lemma OutputOfOne(e: Emit)
    ensures BytesOf([e]) == (if e.EmitBytes? then e.data else [])
    ensures FilesOf([e]) == (if e.EmitFile? then [e.file] else [])
  {
    assert [e][1..] == [];
  }

  /** The writes of `serialize` for `v`: the encoding rules of `IPCSerializer`. */
  function Encode(v: Value): Encoding
    requires WellFormed(v)
    decreases v, 1
  {
    match v
    case Int(k, n) => Encoding([EmitBytes(IntBytes(k, n))], None)
    case Bool(b) => Encoding([EmitBytes([if b then 1 else 0])], None)
    case Unit => Encoding([], None)
    case NoneV => Encoding([EmitBytes([0])], None)
    case SomeV(x) => Then([EmitBytes([1])], Encode(x))
    case Fd(fd) => Encoding([EmitFile(SysFd(fd))], None)
    case Tuple(items) => EncodeAll(items)
    case Variant(i, payload) =>
      if i < 0x100 then Then([EmitBytes([i])], Encode(payload)) else Encoding([], Some(InvalidValue))
    case Map(es) => EncodeEntries(es)
    case Other(_) => Encoding([], Some(Unimplemented))
  }

  /** `SerializeMap`: each key and then its value, stopping at the first error. */
  function EncodeEntries(es: seq<Entry>): Encoding
    requires WellFormedEntries(es)
    decreases es, 0
  {
    if es == [] then Encoding([], None)
    else
      var first := EncodeEntry(es[0]);
      if first.err.Some? then first else Then(first.emits, EncodeEntries(es[1..]))
  }

  /** `serialize_key` and then `serialize_value`. */
  function EncodeEntry(e: Entry): Encoding
    requires WellFormedEntry(e)
    decreases e, 0
  {
    var key := Encode(e.key);
    if key.err.Some? then key else Then(key.emits, Encode(e.value))
  }

  /** The fields of a compound value one after another, stopping at the first error. */
  function EncodeAll(vs: seq<Value>): Encoding
    requires WellFormedAll(vs)
    decreases vs, 0
  {
    if vs == [] then Encoding([], None)
    else
      var first := Encode(vs[0]);
      if first.err.Some? then first else Then(first.emits, EncodeAll(vs[1..]))
  }

  function Then(prefix: seq<Emit>, e: Encoding): Encoding
  {
    Encoding(prefix + e.emits, e.err)
  }

  /** The value contains nothing the serializer refuses. */
  predicate Encodable(v: Value)
  {
    match v
    case SomeV(x) => Encodable(x)
    case Tuple(items) => AllEncodable(items)
    case Variant(i, payload) => i < 0x100 && Encodable(payload)
    case Map(es) => EntriesEncodable(es)
    case Other(_) => false
    case _ => true
  }

  predicate AllEncodable(vs: seq<Value>)
  {
    vs == [] || (Encodable(vs[0]) && AllEncodable(vs[1..]))
  }

  predicate EntriesEncodable(es: seq<Entry>)
  {
    es == [] || (EntryEncodable(es[0]) && EntriesEncodable(es[1..]))
  }

  predicate EntryEncodable(e: Entry)
  {
    Encodable(e.key) && Encodable(e.value)
  }

  /** Serialization fails exactly on the unimplemented kinds and on variant indices of 0x100 and more. */
  lemma {:induction false} EncodeSucceedsIff(v: Value)
    requires WellFormed(v)
    ensures Encode(v).err.None? <==> Encodable(v)
    decreases v, 1
  {
    match v
    case SomeV(x) => EncodeSucceedsIff(x);
    case Tuple(items) => EncodeAllSucceedsIff(items);
    case Variant(i, payload) => if i < 0x100 { EncodeSucceedsIff(payload); }
    case Map(es) => EncodeEntriesSucceedsIff(es);
    case _ =>
  }

  lemma {:induction false} EncodeEntriesSucceedsIff(es: seq<Entry>)
    requires WellFormedEntries(es)
    ensures EncodeEntries(es).err.None? <==> EntriesEncodable(es)
    decreases es, 0
  {
    if es != [] {
      EncodeEntrySucceedsIff(es[0]);
      EncodeEntriesSucceedsIff(es[1..]);
    }
  }

  lemma {:induction false} EncodeEntrySucceedsIff(e: Entry)
    requires WellFormedEntry(e)
    ensures EncodeEntry(e).err.None? <==> EntryEncodable(e)
    decreases e, 0
  {
    EncodeSucceedsIff(e.key);
    EncodeSucceedsIff(e.value);
  }

  /** The keys and values of a map, alternating, in the map's order. */
  function Interleaved(es: seq<Entry>): (vs: seq<Value>)
    ensures |vs| == 2 * |es|
  {
    if es == [] then [] else [es[0].key, es[0].value] + Interleaved(es[1..])
  }

  /** A map is written exactly as the tuple of its keys and values, alternating, would be: no length, no separator. */
  lemma {:induction false} MapIsInterleaved(es: seq<Entry>)
    requires WellFormedEntries(es)
    ensures WellFormedAll(Interleaved(es))
    ensures EncodeEntries(es) == EncodeAll(Interleaved(es))
    decreases es
  {
    if es != [] {
      var vs, e := Interleaved(es), es[0];
      MapIsInterleaved(es[1..]);
      assert vs[0] == e.key && vs[1..][0] == e.value && vs[1..][1..] == Interleaved(es[1..]);
      var k, x, rest := Encode(e.key), Encode(e.value), EncodeEntries(es[1..]);
      if k.err.None? && x.err.None? {
        assert (k.emits + x.emits) + rest.emits == k.emits + (x.emits + rest.emits);
      }
    }
  }

  lemma {:induction false} EncodeAllSucceedsIff(vs: seq<Value>)
    requires WellFormedAll(vs)
    ensures EncodeAll(vs).err.None? <==> AllEncodable(vs)
    decreases vs, 0
  {
    if vs != [] {
      EncodeSucceedsIff(vs[0]);
      EncodeAllSucceedsIff(vs[1..]);
    }
  }

  /** The unimplemented kinds fail with Unimplemented before writing anything. */
  lemma UnsupportedWritesNothing(k: Unsupported)
    ensures Encode(Other(k)) == Encoding([], Some(Unimplemented))
  {
  }

  // ---------------------------------------------------------------------
  // Deserialization

  datatype Decoded<T> = Decoded(value: T, bytes: seq<u8>, files: seq<SysFd>)

  /** One leading byte, as `pop_front_byte` reads it. */
  function Tag(bs: seq<u8>): Result<u8, Error>
  {
    if bs == [] then Err(UnexpectedEnd) else Ok(bs[0])
  }

  /** The rules of `IPCDeserializer`: read a `ty` from the front of the byte and file queues. */
  function Decode(ty: Ty, bs: seq<u8>, fs: seq<SysFd>): (r: Result<Decoded<Value>, Error>)
    ensures r.Ok? ==> |r.value.bytes| <= |bs| && |r.value.files| <= |fs|
    ensures r.Ok? ==> HasType(r.value.value, ty)
    ensures ty.TInt? ==> (r.Err? <==> |bs| < ty.kind.Width().Bytes())
    ensures ty.TInt? && r.Ok? ==> r.value.bytes == bs[ty.kind.Width().Bytes()..] && r.value.files == fs
    ensures (ty.TBool? || ty.TOption? || ty.TEnum?) && bs == [] ==> r == Err(UnexpectedEnd)
    ensures (ty.TBool? || ty.TOption?) && bs != [] && bs[0] > 1 ==> r == Err(InvalidValue)
    ensures ty.TEnum? && bs != [] && bs[0] >= |ty.variants| ==> r == Err(Deserialize)
    ensures ty.TSysFd? ==> (r.Err? <==> fs == [])
    ensures ty.TSysFd? && r.Ok? ==> r.value.bytes == bs && r.value.files == fs[1..]
    ensures ty.TSeq? || ty.TMap? || ty.TOther? ==> r == Err(Unimplemented)
    decreases ty, 1
  {
    match ty
    case TInt(k) =>
      var w := k.Width().Bytes();
      if |bs| < w then Err(UnexpectedEnd) else Ok(Decoded(Int(k, IntFromBytes(k, bs[..w])), bs[w..], fs))
    case TBool =>
      if bs == [] then Err(UnexpectedEnd)
      else if bs[0] == 0 then Ok(Decoded(Bool(false), bs[1..], fs))
      else if bs[0] == 1 then Ok(Decoded(Bool(true), bs[1..], fs))
      else Err(InvalidValue)
    case TUnit => Ok(Decoded(Unit, bs, fs))
    case TOption(t) =>
      if bs == [] then Err(UnexpectedEnd)
      else if bs[0] == 0 then Ok(Decoded(NoneV, bs[1..], fs))
      else if bs[0] == 1 then
        (match Decode(t, bs[1..], fs)
         case Ok(d) => Ok(Decoded(SomeV(d.value), d.bytes, d.files))
         case Err(e) => Err(e))
      else Err(InvalidValue)
    case TSysFd => if fs == [] then Err(UnexpectedEnd) else Ok(Decoded(Fd(fs[0].fd), bs, fs[1..]))
    case TTuple(ts) =>
      (match DecodeAll(ts, bs, fs)
       case Ok(d) => Ok(Decoded(Tuple(d.value), d.bytes, d.files))
       case Err(e) => Err(e))
    case TSeq(_) => Err(Unimplemented)
    case TMap(_, _) => Err(Unimplemented)
    case TEnum(vars) =>
      if bs == [] then Err(UnexpectedEnd)
      else if bs[0] >= |vars| then Err(Deserialize)
      else
        (match Decode(vars[bs[0]], bs[1..], fs)
         case Ok(d) => Ok(Decoded(Variant(bs[0], d.value), d.bytes, d.files))
         case Err(e) => Err(e))
    case TOther(_) => Err(Unimplemented)
  }

  /** A tuple access of `|ts|` elements: each field in order, stopping at the first error. */
  function DecodeAll(ts: seq<Ty>, bs: seq<u8>, fs: seq<SysFd>): (r: Result<Decoded<seq<Value>>, Error>)
    ensures r.Ok? ==> |r.value.bytes| <= |bs| && |r.value.files| <= |fs| && |r.value.value| == |ts|
    ensures r.Ok? ==> HaveTypes(r.value.value, ts)
    decreases ts, 0
  {
    if ts == [] then Ok(Decoded([], bs, fs))
    else
      match Decode(ts[0], bs, fs)
      case Err(e) => Err(e)
      case Ok(d) =>
        match DecodeAll(ts[1..], d.bytes, d.files)
        case Err(e) => Err(e)
        case Ok(rest) => Ok(Decoded([d.value] + rest.value, rest.bytes, rest.files))
  }

  // ---------------------------------------------------------------------
  // Round trip

  lemma {:induction false} AllDecodableAt(ts: seq<Ty>, i: nat)
    requires AllDecodable(ts) && i < |ts|
    ensures Decodable(ts[i])
    decreases i
  {
    if i > 0 {
      AllDecodableAt(ts[1..], i - 1);
    }
  }

  /** The byte and file output of a value, as the two queues receive it. */
  function EncBytes(v: Value): seq<u8>
    requires WellFormed(v)
  {
    BytesOf(Encode(v).emits)
  }

  function EncFiles(v: Value): seq<SysFd>
    requires WellFormed(v)
  {
    FilesOf(Encode(v).emits)
  }

  lemma LeafOutput(v: Value)
    requires WellFormed(v) && (v.Int? || v.Bool? || v.Unit? || v.NoneV? || v.Fd?)
    ensures v.Int? ==> EncBytes(v) == IntBytes(v.kind, v.n) && EncFiles(v) == []
    ensures v.Bool? ==> EncBytes(v) == [if v.b then 1 else 0] && EncFiles(v) == []
    ensures v.Unit? ==> EncBytes(v) == [] && EncFiles(v) == []
    ensures v.NoneV? ==> EncBytes(v) == [0] && EncFiles(v) == []
    ensures v.Fd? ==> EncBytes(v) == [] && EncFiles(v) == [SysFd(v.fd)]
  {
    var es := Encode(v).emits;
    if !v.Unit? {
      assert |es| == 1;
      OutputOfOne(es[0]);
      assert [es[0]] == es;
    }
  }

  /** A tuple writes its first field and then the rest of the tuple. */
  lemma TupleOutput(v: Value, vs: seq<Value>)
    requires WellFormed(v) && WellFormedAll(vs) && Encode(v).err.None?
    ensures WellFormed(Tuple([v] + vs))
    ensures Encode(Tuple([v] + vs)).err == Encode(Tuple(vs)).err
    ensures EncBytes(Tuple([v] + vs)) == EncBytes(v) + EncBytes(Tuple(vs))
    ensures EncFiles(Tuple([v] + vs)) == EncFiles(v) + EncFiles(Tuple(vs))
  {
    assert ([v] + vs)[0] == v && ([v] + vs)[1..] == vs;
    assert Encode(Tuple([v] + vs)).emits == Encode(v).emits + Encode(Tuple(vs)).emits;
    OutputOfAppend(Encode(v).emits, Encode(Tuple(vs)).emits);
  }

  /** `Some(x)` and an enum variant write their tag byte and then the payload. */
  lemma TaggedValueOutput(v: Value)
    requires WellFormed(v) && (v.SomeV? || (v.Variant? && v.index < 0x100))
    ensures var p := if v.SomeV? then v.inner else v.payload;
      var tag := if v.SomeV? then 1 else v.index;
      Encode(v).err == Encode(p).err &&
      EncBytes(v) == [tag] + EncBytes(p) && EncFiles(v) == EncFiles(p)
  {
    var p := if v.SomeV? then v.inner else v.payload;
    var tag := if v.SomeV? then 1 else v.index;
    TaggedOutput(tag, Encode(p).emits);
  }

  /** Writing one tag byte before the output of `e`. */
  lemma TaggedOutput(tag: u8, e: seq<Emit>)
    ensures BytesOf([EmitBytes([tag])] + e) == [tag] + BytesOf(e)
    ensures FilesOf([EmitBytes([tag])] + e) == FilesOf(e)
  {
    OutputOfAppend([EmitBytes([tag])], e);
    OutputOfOne(EmitBytes([tag]));
  }

  lemma DecodeInt(k: IntKind, n: int, rb: seq<u8>, rf: seq<SysFd>)
    requires k.Holds(n)
    ensures Decode(TInt(k), IntBytes(k, n) + rb, rf) == Ok(Decoded(Int(k, n), rb, rf))
  {
    var ib := IntBytes(k, n);
    assert (ib + rb)[..k.Width().Bytes()] == ib;
    assert (ib + rb)[k.Width().Bytes()..] == rb;
    IntRoundTrip(k, n);
  }

  /** What follows a tag byte is decoded from the rest of the bytes. */
  lemma DecodeTagged(ty: Ty, tag: u8, bs: seq<u8>, fs: seq<SysFd>)
    requires ty.TOption? || ty.TEnum?
    ensures ty.TOption? && tag == 1 ==>
      Decode(ty, [tag] + bs, fs) ==
        (match Decode(ty.some, bs, fs)
         case Ok(d) => Ok(Decoded(SomeV(d.value), d.bytes, d.files))
         case Err(e) => Err(e))
    ensures ty.TEnum? && tag < |ty.variants| ==>
      Decode(ty, [tag] + bs, fs) ==
        (match Decode(ty.variants[tag], bs, fs)
         case Ok(d) => Ok(Decoded(Variant(tag, d.value), d.bytes, d.files))
         case Err(e) => Err(e))
  {
    assert ([tag] + bs)[1..] == bs;
  }

  lemma DecodeLeaf(v: Value, ty: Ty, rb: seq<u8>, rf: seq<SysFd>)
    requires HasType(v, ty) && WellFormed(v) && (ty.TInt? || ty.TBool? || ty.TUnit? || ty.TSysFd? || (ty.TOption? && v.NoneV?))
    ensures Decode(ty, EncBytes(v) + rb, EncFiles(v) + rf) == Ok(Decoded(v, rb, rf))
  {
    LeafOutput(v);
    var bs := EncBytes(v) + rb;
    if v.Fd? {
      assert bs == rb && EncFiles(v) + rf == [SysFd(v.fd)] + rf && ([SysFd(v.fd)] + rf)[1..] == rf;
    } else {
      assert EncFiles(v) + rf == rf;
    }
    match ty
    case TInt(k) =>
      assert v.kind == k && v == Int(k, v.n);
      assert EncBytes(v) == IntBytes(k, v.n);
      DecodeInt(k, v.n, rb, rf);
    case TBool =>
      assert v == Bool(v.b);
      assert bs == [if v.b then 1 else 0] + rb && bs[1..] == rb;
    case TUnit =>
      assert bs == rb;
    case TSysFd =>
    case TOption(_) =>
      assert bs == [0] + rb && bs[1..] == rb;
  }

  /**
   * Decoding what a value encodes to gives the value back and leaves exactly
   * whatever followed it in either queue.
   */
  lemma {:induction false} DecodeEncode(v: Value, ty: Ty, rb: seq<u8>, rf: seq<SysFd>)
    requires HasType(v, ty) && Decodable(ty) && WellFormed(v) && Encode(v).err.None?
    ensures Decode(ty, EncBytes(v) + rb, EncFiles(v) + rf) == Ok(Decoded(v, rb, rf))
    decreases ty, 2
  {
    match ty
    case TOption(t) =>
      if v.SomeV? { DecodeEncodeSome(v, t, rb, rf); } else { DecodeLeaf(v, ty, rb, rf); }
    case TTuple(ts) =>
      DecodeEncodeAll(v.items, ts, rb, rf);
      assert Encode(v) == EncodeAll(v.items);
    case TEnum(vars) =>
      DecodeEncodeVariant(v, vars, rb, rf);
    case _ =>
      DecodeLeaf(v, ty, rb, rf);
  }

  lemma {:induction false} DecodeEncodeSome(v: Value, t: Ty, rb: seq<u8>, rf: seq<SysFd>)
    requires v.SomeV? && HasType(v.inner, t) && Decodable(t) && WellFormed(v) && Encode(v).err.None?
    ensures Decode(TOption(t), EncBytes(v) + rb, EncFiles(v) + rf) == Ok(Decoded(v, rb, rf))
    decreases TOption(t), 1
  {
    TaggedOutput(1, Encode(v.inner).emits);
    assert EncBytes(v) == [1] + EncBytes(v.inner);
    assert EncFiles(v) == EncFiles(v.inner);
    assert EncBytes(v) + rb == [1] + (EncBytes(v.inner) + rb);
    DecodeTagged(TOption(t), 1, EncBytes(v.inner) + rb, EncFiles(v.inner) + rf);
    DecodeEncode(v.inner, t, rb, rf);
  }

  lemma {:induction false} DecodeEncodeVariant(v: Value, vars: seq<Ty>, rb: seq<u8>, rf: seq<SysFd>)
    requires HasType(v, TEnum(vars)) && AllDecodable(vars) && WellFormed(v) && Encode(v).err.None?
    ensures Decode(TEnum(vars), EncBytes(v) + rb, EncFiles(v) + rf) == Ok(Decoded(v, rb, rf))
    decreases TEnum(vars), 1
  {
    assert v.index < 0x100;
    TaggedOutput(v.index, Encode(v.payload).emits);
    assert EncBytes(v) == [v.index] + EncBytes(v.payload);
    assert EncFiles(v) == EncFiles(v.payload);
    assert EncBytes(v) + rb == [v.index] + (EncBytes(v.payload) + rb);
    DecodeTagged(TEnum(vars), v.index, EncBytes(v.payload) + rb, EncFiles(v.payload) + rf);
    AllDecodableAt(vars, v.index);
    DecodeEncode(v.payload, vars[v.index], rb, rf);
  }

  lemma {:induction false} DecodeEncodeAll(vs: seq<Value>, ts: seq<Ty>, rb: seq<u8>, rf: seq<SysFd>)
    requires HaveTypes(vs, ts) && AllDecodable(ts) && WellFormedAll(vs) && EncodeAll(vs).err.None?
    ensures DecodeAll(ts, BytesOf(EncodeAll(vs).emits) + rb, FilesOf(EncodeAll(vs).emits) + rf)
         == Ok(Decoded(vs, rb, rf))
    decreases ts, 0
  {
    if vs != [] {
      EncodeAllParts(vs, ts);
      EncodeAllSplit(vs);
      OutputSplit(EncodeAll(vs).emits, Encode(vs[0]).emits, EncodeAll(vs[1..]).emits, rb, rf);
      var b2, f2 := BytesOf(EncodeAll(vs[1..]).emits) + rb, FilesOf(EncodeAll(vs[1..]).emits) + rf;
      DecodeEncode(vs[0], ts[0], b2, f2);
      DecodeEncodeAll(vs[1..], ts[1..], rb, rf);
      DecodeAllCons(ts, BytesOf(Encode(vs[0]).emits) + b2, FilesOf(Encode(vs[0]).emits) + f2, b2, f2, vs, rb, rf);
    } else {
      assert BytesOf([]) + rb == rb && FilesOf([]) + rf == rf;
    }
  }

  /** The first of a sequence of typed values and the rest each meet the round trip's conditions. */
  lemma EncodeAllParts(vs: seq<Value>, ts: seq<Ty>)
    requires vs != [] && HaveTypes(vs, ts) && AllDecodable(ts) && WellFormedAll(vs) && EncodeAll(vs).err.None?
    ensures HasType(vs[0], ts[0]) && Decodable(ts[0]) && WellFormed(vs[0]) && Encode(vs[0]).err.None?
    ensures HaveTypes(vs[1..], ts[1..]) && AllDecodable(ts[1..]) && WellFormedAll(vs[1..]) && EncodeAll(vs[1..]).err.None?
  {
  }

  /** The writes of a sequence of values are the first one's writes followed by the rest's. */
  lemma EncodeAllSplit(vs: seq<Value>)
    requires vs != [] && WellFormedAll(vs) && Encode(vs[0]).err.None?
    ensures WellFormed(vs[0]) && WellFormedAll(vs[1..])
    ensures EncodeAll(vs).emits == Encode(vs[0]).emits + EncodeAll(vs[1..]).emits
  {
  }

  /** Whatever follows in either queue stays behind the output of both parts. */
  lemma OutputSplit(all: seq<Emit>, first: seq<Emit>, rest: seq<Emit>, rb: seq<u8>, rf: seq<SysFd>)
    requires all == first + rest
    ensures BytesOf(all) + rb == BytesOf(first) + (BytesOf(rest) + rb)
    ensures FilesOf(all) + rf == FilesOf(first) + (FilesOf(rest) + rf)
  {
    OutputOfAppend(first, rest);
    AppendAssoc(BytesOf(first), BytesOf(rest), rb);
    AppendAssoc(FilesOf(first), FilesOf(rest), rf);
  }

  lemma AppendAssoc<T>(a: seq<T>, b: seq<T>, c: seq<T>)
    ensures (a + b) + c == a + (b + c)
  {
  }

  /** A tuple decodes as its first field followed by the remaining fields. */
  lemma DecodeAllCons(ts: seq<Ty>, bs: seq<u8>, fs: seq<SysFd>, b2: seq<u8>, f2: seq<SysFd>,
                      vs: seq<Value>, rb: seq<u8>, rf: seq<SysFd>)
    requires ts != [] && vs != [] && Decode(ts[0], bs, fs) == Ok(Decoded(vs[0], b2, f2))
    requires DecodeAll(ts[1..], b2, f2) == Ok(Decoded(vs[1..], rb, rf))
    ensures DecodeAll(ts, bs, fs) == Ok(Decoded(vs, rb, rf))
  {
    assert [vs[0]] + vs[1..] == vs;
  }
}
