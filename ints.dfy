/** Fixed-width machine integers and the two's-complement casts between them. */
module Ints {
  const TWO_8: int := 0x100
  const TWO_16: int := 0x1_0000
  const TWO_32: int := 0x1_0000_0000
  const TWO_64: int := 0x1_0000_0000_0000_0000

  type u8 = x: int | 0 <= x < TWO_8
  type u16 = x: int | 0 <= x < TWO_16
  type u32 = x: int | 0 <= x < TWO_32
  type u64 = x: int | 0 <= x < TWO_64
  /** `usize` on the 64-bit targets the code is written for. */
  type usize = u64
  type i8 = x: int | -0x80 <= x < 0x80
  type i16 = x: int | -0x8000 <= x < 0x8000
  type i32 = x: int | -0x8000_0000 <= x < 0x8000_0000
  type i64 = x: int | -0x8000_0000_0000_0000 <= x < 0x8000_0000_0000_0000
  type isize = i64

  /** The widths of Rust's integer types, in bytes. */
  datatype Width = W8 | W16 | W32 | W64 {
    function Bytes(): (n: nat)
      ensures n in {1, 2, 4, 8}
    {
      match this
      case W8 => 1
      case W16 => 2
      case W32 => 4
      case W64 => 8
    }

    /** The number of values of this width: 2^(8 * Bytes()). */
    function Modulus(): (m: nat)
      ensures m == Pow256(Bytes())
    {
      Pow256Values();
      match this
      case W8 => TWO_8
      case W16 => TWO_16
      case W32 => TWO_32
      case W64 => TWO_64
    }
  }

  /** 256^n, the number of values an n-byte integer can take. */
  function Pow256(n: nat): (r: nat)
    ensures r >= 1
  {
    if n == 0 then 1 else 0x100 * Pow256(n - 1)
  }

  lemma Pow256Values()
    ensures Pow256(1) == TWO_8 && Pow256(2) == TWO_16
    ensures Pow256(4) == TWO_32 && Pow256(8) == TWO_64
  {
    assert Pow256(3) == 0x100_0000;
    assert Pow256(6) == 0x1_0000_0000_0000;
  }

  predicate InUnsigned(v: int, w: Width) { 0 <= v < w.Modulus() }
  predicate InSigned(v: int, w: Width) { -(w.Modulus() / 2) <= v < w.Modulus() / 2 }

  /** `v as uN` for a value `v` of a signed or unsigned type of width `w`: two's complement. */
  function ToUnsigned(v: int, w: Width): (r: nat)
    requires -(w.Modulus() / 2) <= v < w.Modulus()
    ensures InUnsigned(r, w)
    ensures v >= 0 ==> r == v
    ensures v < 0 ==> r == v + w.Modulus()
  {
    if v < 0 then v + w.Modulus() else v
  }

  /** `u as iN`: the two's-complement reading of an unsigned value of width `w`. */
  function ToSigned(u: nat, w: Width): (r: int)
    requires InUnsigned(u, w)
    ensures InSigned(r, w)
    ensures r == u || r == u - w.Modulus()
  {
    if u < w.Modulus() / 2 then u else u - w.Modulus()
  }

  /** Signed-to-unsigned and back is the identity on the signed range. */
  lemma SignedRoundTrip(v: int, w: Width)
    requires InSigned(v, w)
    ensures ToSigned(ToUnsigned(v, w), w) == v
  {
  }

  /** Unsigned-to-signed and back is the identity on the unsigned range. */
  lemma UnsignedRoundTrip(u: nat, w: Width)
    requires InUnsigned(u, w)
    ensures ToUnsigned(ToSigned(u, w), w) == u
  {
  }

  /** `u as isize` for a `usize`. */
  function UsizeAsIsize(u: usize): (r: isize)
    ensures r >= 0 ==> r == u
    ensures r < 0 ==> r == u - TWO_64
  {
    ToSigned(u, W64)
  }

  /** `v as usize` for an `isize`. */
  function IsizeAsUsize(v: isize): (r: usize)
    ensures v >= 0 ==> r == v
    ensures v < 0 ==> r == v + TWO_64
  {
    ToUnsigned(v, W64)
  }
}
