/**
 * `ByteReader` over an in-memory byte buffer (`from_bytes`) and the small
 * parsing combinators built on it.
 */
module Parser {
  import opened Ints
  import opened Wrappers

  const SPACE: u8 := 0x20
  const TAB: u8 := 0x09

  predicate IsSpace(b: u8) { b == SPACE || b == TAB }
  predicate IsDigit(b: u8) { 0x30 <= b <= 0x39 }
  predicate IsHex(b: u8) { IsDigit(b) || 0x61 <= b <= 0x66 || 0x41 <= b <= 0x46 }

  /** The value of one decimal digit. */
  function DecDigit(b: u8): (d: nat)
    requires IsDigit(b)
    ensures d < 10
  {
    b as int - 0x30
  }

  /** The value of one hex digit, either case. */
  function HexDigit(b: u8): (d: nat)
    requires IsHex(b)
    ensures d < 16
  {
    if IsDigit(b) then b as int - 0x30 else if b >= 0x61 then 10 + b as int - 0x61 else 10 + b as int - 0x41
  }

  /** The length of the leading run of bytes that satisfy `p`. */
  function Run(s: seq<u8>, p: u8 -> bool): (n: nat)
    ensures n <= |s|
    ensures forall i :: 0 <= i < n ==> p(s[i])
    ensures n < |s| ==> !p(s[n])
  {
    if s == [] || !p(s[0]) then 0 else 1 + Run(s[1..], p)
  }

  /** The unbounded value of a decimal digit string, most significant digit first. */
  function DecValue(s: seq<u8>): nat
    requires forall i :: 0 <= i < |s| ==> IsDigit(s[i])
  {
    if s == [] then 0 else DecValue(s[..|s| - 1]) * 10 + DecDigit(s[|s| - 1])
  }

  /** The unbounded value of a hex digit string, most significant digit first. */
  function HexValue(s: seq<u8>): nat
    requires forall i :: 0 <= i < |s| ==> IsHex(s[i])
  {
    if s == [] then 0 else HexValue(s[..|s| - 1]) * 16 + HexDigit(s[|s| - 1])
  }

  function Pow(b: nat, n: nat): (r: nat)
    requires b >= 1
    ensures r >= 1
  {
    if n == 0 then 1 else b * Pow(b, n - 1)
  }

  /** n decimal digits are worth less than 10^n. */
  lemma {:induction false} DecValueBound(s: seq<u8>)
    requires forall i :: 0 <= i < |s| ==> IsDigit(s[i])
    ensures DecValue(s) < Pow(10, |s|)
    decreases |s|
  {
    if s != [] {
      DecValueBound(s[..|s| - 1]);
    }
  }

  /** n hex digits are worth less than 16^n. */
  lemma {:induction false} HexValueBound(s: seq<u8>)
    requires forall i :: 0 <= i < |s| ==> IsHex(s[i])
    ensures HexValue(s) < Pow(16, |s|)
    decreases |s|
  {
    if s != [] {
      HexValueBound(s[..|s| - 1]);
    }
  }

  /** Up to 19 decimal digits never wrap: `u64_dec` then returns the exact value. */
  lemma DecNoWrap(s: seq<u8>)
    requires (forall i :: 0 <= i < |s| ==> IsDigit(s[i])) && |s| <= 19
    ensures DecValue(s) % TWO_64 == DecValue(s)
  {
    DecValueBound(s);
    PowMono(10, |s|, 19);
    PowValues();
  }

  /** Up to 16 hex digits lose no bits: `u64_hex` then returns the exact value. */
  lemma HexNoWrap(s: seq<u8>)
    requires (forall i :: 0 <= i < |s| ==> IsHex(s[i])) && |s| <= 16
    ensures HexValue(s) % TWO_64 == HexValue(s)
  {
    HexValueBound(s);
    PowMono(16, |s|, 16);
    PowValues();
  }

  lemma PowValues()
    ensures Pow(10, 19) == 10_000_000_000_000_000_000 && Pow(16, 16) == TWO_64
  {
    assert Pow(10, 4) == 10_000;
    assert Pow(10, 8) == 100_000_000;
    assert Pow(10, 12) == 1_000_000_000_000;
    assert Pow(10, 16) == 10_000_000_000_000_000;
    assert Pow(16, 4) == 0x1_0000;
    assert Pow(16, 8) == 0x1_0000_0000;
    assert Pow(16, 12) == 0x1_0000_0000_0000;
  }

  lemma {:induction false} PowMono(b: nat, m: nat, n: nat)
    requires b >= 1 && m <= n
    ensures Pow(b, m) <= Pow(b, n)
    decreases n
  {
    if m < n {
      PowMono(b, m, n - 1);
      var p := Pow(b, n - 1);
      assert Pow(b, n) == b * p;
      assert b * p == p + (b - 1) * p;
    }
  }

  /** Reducing before a multiply-add step gives the same remainder as reducing after it. */
  lemma ModStep(a: nat, m: nat, d: nat)
    ensures ((a % TWO_64) * m + d) % TWO_64 == (a * m + d) % TWO_64
  {
    var q := a / TWO_64;
    assert a == q * TWO_64 + a % TWO_64;
    assert a * m + d == ((a % TWO_64) * m + d) + (q * m) * TWO_64;
    ShiftMod((a % TWO_64) * m + d, q * m);
  }

  lemma ShiftMod(x: nat, k: nat)
    ensures (x + k * TWO_64) % TWO_64 == x % TWO_64
  {
  }

  /** Stepping a digit run by one more digit. */
  lemma DecValueStep(s: seq<u8>, b: u8)
    requires (forall i :: 0 <= i < |s| ==> IsDigit(s[i])) && IsDigit(b)
    ensures DecValue(s + [b]) == DecValue(s) * 10 + DecDigit(b)
  {
    assert (s + [b])[..|s|] == s;
  }

  lemma HexValueStep(s: seq<u8>, b: u8)
    requires (forall i :: 0 <= i < |s| ==> IsHex(s[i])) && IsHex(b)
    ensures HexValue(s + [b]) == HexValue(s) * 16 + HexDigit(b)
  {
    assert (s + [b])[..|s|] == s;
  }

  /** `byte.wrapping_sub(b'0') < 10` holds exactly for the decimal digits. */
  lemma WrappingDigit(b: u8)
    ensures ((b as int - 0x30) % TWO_64 < 10) <==> IsDigit(b)
    ensures IsDigit(b) ==> (b as int - 0x30) % TWO_64 == b as int - 0x30
  {
    if b < 0x30 {
      assert (b as int - 0x30) % TWO_64 == b as int - 0x30 + TWO_64;
    }
  }

  /** One step of the decimal loop keeps `value` equal to the digits' value modulo 2^64. */
  lemma DecStep(s: seq<u8>, b: u8, value: int)
    requires (forall i :: 0 <= i < |s| ==> IsDigit(s[i])) && IsDigit(b)
    requires value == DecValue(s) % TWO_64
    ensures (value * 10 + (b as int - 0x30)) % TWO_64 == DecValue(s + [b]) % TWO_64
  {
    DecValueStep(s, b);
    ModStep(DecValue(s), 10, DecDigit(b));
  }

  /** One step of the hex loop: the shifted value plus the digit stays below 2^64 and tracks the digits' value. */
  lemma HexStep(s: seq<u8>, b: u8, value: int)
    requires (forall i :: 0 <= i < |s| ==> IsHex(s[i])) && IsHex(b)
    requires value == HexValue(s) % TWO_64
    ensures (value * 16) % TWO_64 + HexDigit(b) < TWO_64
    ensures (value * 16) % TWO_64 + HexDigit(b) == HexValue(s + [b]) % TWO_64
  {
    var h, d := HexValue(s), HexDigit(b);
    HexValueStep(s, b);
    ShiftedOr(value, d);
    ModStep(h, 16, d);
    assert value * 16 + d == (h % TWO_64) * 16 + d;
  }

  /** A reader over a fixed buffer; `pos` is `buf_position`. */
  class ByteReader {
    const capacity: nat
    const buf: seq<u8>
    var pos: nat

    ghost predicate Valid()
      reads this
    {
      pos <= |buf| <= capacity
    }

    /** What is left to read. */
    function Remaining(): seq<u8>
      reads this
      requires Valid()
    {
      buf[pos..]
    }

    constructor Over(bytes: seq<u8>, cap: nat)
      requires |bytes| <= cap
      ensures Valid() && capacity == cap && buf == bytes && pos == 0
    {
      capacity, buf, pos := cap, bytes, 0;
    }

    /** `peek`: the next byte, if any. In this mode no file is read, so there is no I/O error. */
    function Peek(): (r: Option<u8>)
      reads this
      requires Valid()
      ensures r.None? <==> Remaining() == []
      ensures r.Some? ==> r.value == Remaining()[0]
    {
      if pos == |buf| then None else Some(buf[pos])
    }

    /** `next`: the next byte, consumed; `None` at the end, for good. */
    method Next() returns (r: Option<u8>)
      requires Valid()
      modifies this
      ensures Valid()
      ensures old(Remaining()) == [] ==> r.None? && pos == old(pos)
      ensures old(Remaining()) != [] ==> r == Some(old(Remaining())[0]) && Remaining() == old(Remaining())[1..]
    {
      r := Peek();
      if r.Some? {
        pos := pos + 1;
      }
    }
  }

  /** `ByteReader::from_bytes`: fails when the bytes do not fit the buffer's capacity. */
  method FromBytes(bytes: seq<u8>, capacity: nat) returns (r: Result<ByteReader, ()>)
    ensures r.Err? <==> |bytes| > capacity
    ensures r.Ok? ==> fresh(r.value) && r.value.Valid() && r.value.buf == bytes && r.value.pos == 0
    ensures r.Ok? ==> r.value.Remaining() == bytes
  {
    if |bytes| > capacity {
      r := Err(());
    } else {
      var reader := new ByteReader.Over(bytes, capacity);
      assert reader.buf[0..] == bytes;
      r := Ok(reader);
    }
  }

  /** `byte`: consume one byte if it is `template`; otherwise leave the reader alone. */
  method Byte(reader: ByteReader, template: u8) returns (r: Result<(), ()>)
    requires reader.Valid()
    modifies reader
    ensures reader.Valid()
    ensures r == Ok(()) || r == Err(())
    ensures r.Ok? <==> old(reader.Remaining()) != [] && old(reader.Remaining())[0] == template
    ensures r.Ok? ==> reader.Remaining() == old(reader.Remaining())[1..] && reader.pos == old(reader.pos) + 1
    ensures r.Err? ==> reader.pos == old(reader.pos)
  {
    var p := reader.Peek();
    if p == Some(template) {
      var _ := reader.Next();
      r := Ok(());
    } else {
      r := Err(());
    }
  }

  /** `space`: one space or tab. */
  method Space(reader: ByteReader) returns (r: Result<(), ()>)
    requires reader.Valid()
    modifies reader
    ensures reader.Valid()
    ensures r.Ok? <==> old(reader.Remaining()) != [] && IsSpace(old(reader.Remaining())[0])
    ensures r.Ok? ==> reader.pos == old(reader.pos) + 1
    ensures r.Err? ==> reader.pos == old(reader.pos)
  {
    r := Byte(reader, SPACE);
    if r.Err? {
      r := Byte(reader, TAB);
    }
  }

  /** `spaces`: at least one space or tab, and then every one that follows. */
  method Spaces(reader: ByteReader) returns (r: Result<(), ()>)
    requires reader.Valid()
    modifies reader
    ensures reader.Valid()
    ensures r.Ok? <==> Run(old(reader.Remaining()), IsSpace) > 0
    ensures r.Ok? ==> reader.pos == old(reader.pos) + Run(old(reader.Remaining()), IsSpace)
    ensures r.Err? ==> reader.pos == old(reader.pos)
  {
    ghost var rest := reader.Remaining();
    r := Space(reader);
    if r.Err? {
      return;
    }
    var more := Ok(());
    while more.Ok?
      invariant reader.Valid() && old(reader.pos) < reader.pos <= |reader.buf|
      invariant forall i :: old(reader.pos) <= i < reader.pos ==> IsSpace(reader.buf[i])
      invariant more.Err? ==> reader.pos == |reader.buf| || !IsSpace(reader.buf[reader.pos])
      decreases |reader.buf| - reader.pos, if more.Ok? then 1 else 0
    {
      more := Space(reader);
    }
    RunIsMaximal(rest, IsSpace, reader.pos - old(reader.pos));
  }

  /** A run of `n` bytes satisfying `p`, followed by the end or by one that does not, is the whole leading run. */
  lemma {:induction false} RunIsMaximal(s: seq<u8>, p: u8 -> bool, n: nat)
    requires n <= |s| && (forall i :: 0 <= i < n ==> p(s[i])) && (n == |s| || !p(s[n]))
    ensures Run(s, p) == n
    decreases n
  {
    if n > 0 {
      RunIsMaximal(s[1..], p, n - 1);
    }
  }

  /** `eof`: succeeds exactly when nothing is left. */
  method Eof(reader: ByteReader) returns (r: Result<(), ()>)
    requires reader.Valid()
    ensures r == Ok(()) || r == Err(())
    ensures r.Ok? <==> reader.Remaining() == []
  {
    r := if reader.Peek().None? then Ok(()) else Err(());
  }

  /**
   * `u64_dec`: at least one digit, then the longest run of digits, as a
   * decimal number. The `value * 10 + digit` step is computed modulo 2^64.
   */
  method U64Dec(reader: ByteReader) returns (r: Result<u64, ()>)
    requires reader.Valid()
    modifies reader
    ensures reader.Valid()
    ensures var n := Run(old(reader.Remaining()), IsDigit);
      (r.Ok? <==> n > 0) &&
      (r.Ok? ==> reader.pos == old(reader.pos) + n && r.value == DecValue(old(reader.Remaining())[..n]) % TWO_64) &&
      (r.Err? ==> reader.pos == old(reader.pos))
  {
    ghost var rest := reader.Remaining();
    ghost var start := reader.pos;
    var first := reader.Peek();
    if first.None? || !IsDigit(first.value) {
      return Err(());
    }
    var value: u64 := 0;
    while true
      invariant reader.Valid() && start <= reader.pos <= |reader.buf|
      invariant DecScanned(reader.buf, start, reader.pos, value)
      invariant reader.pos > start || IsDigit(reader.buf[reader.pos])
      decreases |reader.buf| - reader.pos
    {
      var p := reader.Peek();
      if p.None? {
        break;
      }
      var digit := (p.value as int - 0x30) % TWO_64;
      WrappingDigit(p.value);
      if digit >= 10 {
        break;
      }
      DecAdvance(reader.buf, start, reader.pos, value, digit);
      var _ := reader.Next();
      value := (value * 10 + digit) % TWO_64;
    }
    RunIsMaximal(rest, IsDigit, reader.pos - start);
    assert rest[..reader.pos - start] == reader.buf[start..reader.pos];
    r := Ok(value);
  }

  /** The bytes from `start` to `pos` are hex digits whose value modulo 2^64 is `value`. */
  ghost predicate HexScanned(buf: seq<u8>, start: nat, pos: nat, value: int)
    requires start <= pos <= |buf|
  {
    (forall i :: start <= i < pos ==> IsHex(buf[i])) && value == HexValue(buf[start..pos]) % TWO_64
  }

  /** The bytes from `start` to `pos` are decimal digits whose value modulo 2^64 is `value`. */
  ghost predicate DecScanned(buf: seq<u8>, start: nat, pos: nat, value: int)
    requires start <= pos <= |buf|
  {
    (forall i :: start <= i < pos ==> IsDigit(buf[i])) && value == DecValue(buf[start..pos]) % TWO_64
  }

  /** One more decimal digit scanned: the value is multiplied by ten and takes the digit. */
  lemma DecAdvance(buf: seq<u8>, start: nat, pos: nat, value: int, digit: int)
    requires start <= pos < |buf| && IsDigit(buf[pos]) && DecScanned(buf, start, pos, value)
    requires digit == buf[pos] as int - 0x30
    ensures DecScanned(buf, start, pos + 1, (value * 10 + digit) % TWO_64)
  {
    assert buf[start..pos + 1] == buf[start..pos] + [buf[pos]];
    DecStep(buf[start..pos], buf[pos], value);
  }

  /** One more hex digit scanned: the value shifts by four bits and takes the digit. */
  lemma HexAdvance(buf: seq<u8>, start: nat, pos: nat, value: int, b: u8)
    requires start <= pos < |buf| && b == buf[pos] && IsHex(b) && HexScanned(buf, start, pos, value)
    ensures (value * 16) % TWO_64 + HexDigit(b) < TWO_64
    ensures HexScanned(buf, start, pos + 1, (value * 16) % TWO_64 + HexDigit(b))
  {
    assert buf[start..pos + 1] == buf[start..pos] + [b];
    HexStep(buf[start..pos], b, value);
  }

  /**
   * `u64_hex`: at least one hex digit of either case, then the longest run of
   * them. `value << 4` drops the bits above 64, so the value is modulo 2^64.
   */
  method U64Hex(reader: ByteReader) returns (r: Result<u64, ()>)
    requires reader.Valid()
    modifies reader
    ensures reader.Valid()
    ensures var n := Run(old(reader.Remaining()), IsHex);
      (r.Ok? <==> n > 0) &&
      (r.Ok? ==> reader.pos == old(reader.pos) + n && r.value == HexValue(old(reader.Remaining())[..n]) % TWO_64) &&
      (r.Err? ==> reader.pos == old(reader.pos))
  {
    ghost var rest := reader.Remaining();
    ghost var start := reader.pos;
    var first := reader.Peek();
    if first.None? || !IsHex(first.value) {
      return Err(());
    }
    var value: u64 := 0;
    while true
      invariant reader.Valid() && start <= reader.pos <= |reader.buf|
      invariant HexScanned(reader.buf, start, reader.pos, value)
      invariant reader.pos > start || IsHex(reader.buf[reader.pos])
      decreases |reader.buf| - reader.pos
    {
      var p := reader.Peek();
      if p.None? || !IsHex(p.value) {
        break;
      }
      HexAdvance(reader.buf, start, reader.pos, value, p.value);
      var _ := reader.Next();
      value := ((value * 16) % TWO_64) + HexDigit(p.value);
    }
    RunIsMaximal(rest, IsHex, reader.pos - start);
    assert rest[..reader.pos - start] == reader.buf[start..reader.pos];
    r := Ok(value);
  }

  /** After `<< 4` the low four bits are free, so OR-ing a digit in adds it without reaching 2^64. */
  lemma ShiftedLowBitsFree(v: nat, d: nat)
    requires v < TWO_64 && d < 16
    ensures (v * 16) % TWO_64 + d < TWO_64
  {
    var q := (v * 16) / TWO_64;
    assert (v * 16) % TWO_64 == v * 16 - q * TWO_64;
    assert v * 16 - q * TWO_64 == (v - q * 0x1000_0000_0000_0000) * 16;
  }

  lemma ShiftedOr(v: nat, d: nat)
    requires v < TWO_64 && d < 16
    ensures ((v * 16) % TWO_64) + d == (v * 16 + d) % TWO_64
  {
    ShiftedLowBitsFree(v, d);
    var q := (v * 16) / TWO_64;
    assert v * 16 + d == ((v * 16) % TWO_64 + d) + q * TWO_64;
    ShiftMod((v * 16) % TWO_64 + d, q);
  }

  /**
   * `u64_0x`: "0x" and then a hex number. A "0" that is not followed by "x"
   * stays consumed, as in the combinator chain it is written as.
   */
  method U64Hex0x(reader: ByteReader) returns (r: Result<u64, ()>)
    requires reader.Valid()
    modifies reader
    ensures reader.Valid()
    ensures var s := old(reader.Remaining());
      var prefixed := |s| >= 2 && s[0] == 0x30 && s[1] == 0x78;
      (r.Ok? <==> prefixed && Run(s[2..], IsHex) > 0) &&
      (r.Ok? ==> r.value == HexValue(s[2..][..Run(s[2..], IsHex)]) % TWO_64 &&
                 reader.pos == old(reader.pos) + 2 + Run(s[2..], IsHex))
    // On failure the prefix bytes already matched stay consumed.
    ensures var s := old(reader.Remaining());
      var matched := if |s| >= 1 && s[0] == 0x30 then (if |s| >= 2 && s[1] == 0x78 then 2 else 1) else 0;
      r.Err? ==> reader.pos == old(reader.pos) + matched
  {
    ghost var s := reader.Remaining();
    var zero := Byte(reader, 0x30);
    if zero.Err? { return Err(()); }
    var x := Byte(reader, 0x78);
    if x.Err? { return Err(()); }
    assert reader.Remaining() == s[2..];
    r := U64Hex(reader);
  }
}

/** The reader's own tests, stated as methods whose results are proved. */
module ParserExamples {
  import opened Ints
  import opened Wrappers
  import opened Parser

  const BLAH: seq<u8> := [0x62, 0x6c, 0x61, 0x68]

  /** Reading "blah" byte by byte, and then the end twice. */
  method Blah() returns (rs: seq<Option<u8>>)
    ensures rs == [Some(0x62), Some(0x6c), Some(0x61), Some(0x68), None, None]
  {
    var made := FromBytes(BLAH, 128);
    var r := made.value;
    var a := r.Next();
    var b := r.Next();
    var c := r.Next();
    var d := r.Next();
    var e := r.Next();
    var f := r.Next();
    rs := [a, b, c, d, e, f];
  }

  /** Matching "blah" with `byte` and `eof`: a mismatch consumes nothing. */
  method Blah2() returns (rs: seq<Result<(), ()>>)
    ensures rs == [Ok(()), Err(()), Err(()), Ok(()), Err(()), Ok(()), Err(()), Ok(()), Ok(()), Err(()), Ok(())]
  {
    var made := FromBytes(BLAH, 128);
    var r := made.value;
    var r0 := Byte(r, 0x62);
    assert r0.Ok? && r.pos == 1;
    var r1 := Byte(r, 0x62);
    assert r1.Err? && r.pos == 1;
    var r2 := Eof(r);
    assert r2.Err?;
    assert r.Remaining() == BLAH[1..];
    var r3 := Byte(r, 0x6c);
    assert r3.Ok? && r.pos == 2;
    var r4 := Eof(r);
    assert r4.Err?;
    assert r.Remaining() == BLAH[2..];
    var r5 := Byte(r, 0x61);
    assert r5.Ok? && r.pos == 3;
    var r6 := Byte(r, 0x61);
    assert r6.Err? && r.pos == 3;
    assert r.Remaining() == BLAH[3..];
    var r7 := Byte(r, 0x68);
    assert r7.Ok? && r.pos == 4;
    var r8 := Eof(r);
    assert r8.Ok?;
    var r9 := Byte(r, 0x61);
    assert r9.Err? && r.pos == 4;
    var r10 := Eof(r);
    assert r10.Ok?;
    rs := [r0, r1, r2, r3, r4, r5, r6, r7, r8, r9, r10];
  }
}
