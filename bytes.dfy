/**
 * Bytes, fixed-width integers and their little-endian encoding. The program only
 * builds for x86 and x86_64, so every multi-byte integer of a record is little-endian.
 */
module Bytes {

  type Byte = x: int | 0 <= x < 0x100

  /** Rust's `i8`, which is what `c_char` is on the supported targets. */
  type I8 = x: int | -0x80 <= x < 0x80
  type I16 = x: int | -0x8000 <= x < 0x8000
  type I32 = x: int | -0x8000_0000 <= x < 0x8000_0000
  type U32 = x: int | 0 <= x < 0x1_0000_0000

  function Pow256(n: nat): (r: nat)
    ensures r >= 1
  {
    if n == 0 then 1 else 0x100 * Pow256(n - 1)
  }

  lemma Pow256Values()
    ensures Pow256(1) == 0x100 && Pow256(2) == 0x1_0000 && Pow256(4) == 0x1_0000_0000
  {
    assert Pow256(2) == 0x100 * Pow256(1);
    assert Pow256(3) == 0x100 * Pow256(2);
  }

  /** The unsigned value of a little-endian byte string. */
  function LeValue(bs: seq<Byte>): (v: nat)
    ensures v < Pow256(|bs|)
  {
    if bs == [] then 0 else bs[0] + 0x100 * LeValue(bs[1..])
  }

  /** The `n` low-order bytes of `v`, least significant first. */
  function LeBytes(v: nat, n: nat): (bs: seq<Byte>)
    ensures |bs| == n
  {
    if n == 0 then [] else [v % 0x100] + LeBytes(v / 0x100, n - 1)
  }

  lemma {:induction false} LeValueOfLeBytes(v: nat, n: nat)
    requires v < Pow256(n)
    ensures LeValue(LeBytes(v, n)) == v
  {
    if n > 0 {
      LeValueOfLeBytes(v / 0x100, n - 1);
      assert LeBytes(v, n)[1..] == LeBytes(v / 0x100, n - 1);
    }
  }

  lemma {:induction false} LeBytesOfLeValue(bs: seq<Byte>)
    ensures LeBytes(LeValue(bs), |bs|) == bs
  {
    if bs != [] {
      var v := LeValue(bs);
      assert v % 0x100 == bs[0] && v / 0x100 == LeValue(bs[1..]);
      LeBytesOfLeValue(bs[1..]);
    }
  }

  /** A little-endian value is zero exactly when every one of its bytes is. */
  lemma {:induction false} LeValueZero(bs: seq<Byte>)
    ensures LeValue(bs) == 0 <==> forall i :: 0 <= i < |bs| ==> bs[i] == 0
  {
    if bs != [] {
      LeValueZero(bs[1..]);
      assert forall i :: 1 <= i < |bs| ==> bs[i] == bs[1..][i - 1];
    }
  }

  /** Reinterprets the bits of a byte as a signed `i8` (a `c_char`). */
  function ToI8(b: Byte): I8 {
    if b < 0x80 then b else b - 0x100
  }

  /** Reinterprets 16 bits as a signed `i16`. */
  function ToI16(u: nat): I16
    requires u < 0x1_0000
  {
    if u < 0x8000 then u else u - 0x1_0000
  }

  /** Reinterprets 32 bits as a signed `i32`. */
  function ToI32(u: nat): I32
    requires u < 0x1_0000_0000
  {
    if u < 0x8000_0000 then u else u - 0x1_0000_0000
  }

  /** `x as u8` for a signed `i8`: the same bits read as unsigned. */
  function AsU8(x: I8): Byte {
    if x < 0 then x + 0x100 else x
  }

  /** `x as u16` for a signed `i16`. */
  function AsU16(x: I16): nat {
    if x < 0 then x + 0x1_0000 else x
  }

  /** `x as u32` for a signed `i32`. */
  function AsU32(x: I32): U32 {
    if x < 0 then x + 0x1_0000_0000 else x
  }

  /** An `i16` as it lies in memory on a little-endian target. */
  function I16Bytes(x: I16): (bs: seq<Byte>)
    ensures |bs| == 2
  {
    LeBytes(AsU16(x), 2)
  }

  /** An `i32` as it lies in memory on a little-endian target. */
  function I32Bytes(x: I32): (bs: seq<Byte>)
    ensures |bs| == 4
  {
    LeBytes(AsU32(x), 4)
  }

  /** An `i32` is zero exactly when its four bytes are. */
  lemma I32BytesZero(w: I32)
    ensures w == 0 <==> forall i :: 0 <= i < 4 ==> I32Bytes(w)[i] == 0
  {
    Pow256Values();
    LeValueOfLeBytes(AsU32(w), 4);
    LeValueZero(I32Bytes(w));
  }

  /** Arithmetic on `u32` that wraps around: reduction modulo 2^32. */
  function Wrap32(x: int): U32 {
    x % 0x1_0000_0000
  }

  /** Reading an `i32` as `u32` is reduction modulo 2^32. */
  lemma AsU32IsModular(x: I32)
    ensures AsU32(x) == Wrap32(x)
  {
  }

  lemma SignedRoundTrips(b: Byte, u16: nat, u32: nat, x8: I8, x16: I16, x32: I32)
    requires u16 < 0x1_0000 && u32 < 0x1_0000_0000
    ensures AsU8(ToI8(b)) == b && ToI8(AsU8(x8)) == x8
    ensures AsU16(ToI16(u16)) == u16 && ToI16(AsU16(x16)) == x16
    ensures AsU32(ToI32(u32)) == u32 && ToI32(AsU32(x32)) == x32
  {
  }

  /** A signed `c_char` is `<= 0` exactly when its byte is zero or has its top bit set. */
  lemma NonPositiveI8(b: Byte)
    ensures ToI8(b) <= 0 <==> b == 0 || b >= 0x80
  {
  }
}
