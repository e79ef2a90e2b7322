/** Fixed-width unsigned integers and their little-endian byte encoding.

    The C records store `uint8_t`, `uint16_t`, `uint32_t` and `size_t` (64-bit)
    fields; here each width is a newtype, and a record's bytes are the
    little-endian digits of its fields.
 */
module Bytes {

  newtype byte = x: int | 0 <= x < 0x100
  newtype u16 = x: int | 0 <= x < 0x1_0000
  newtype u32 = x: int | 0 <= x < 0x1_0000_0000
  newtype u64 = x: int | 0 <= x < 0x1_0000_0000_0000_0000

  /** 256 to the power w: the number of values that fit in w bytes. */
  function Pow256(w: nat): (p: nat)
    ensures p > 0
  {
    if w == 0 then 1 else 256 * Pow256(w - 1)
  }

  lemma Pow256Widths()
    ensures Pow256(1) == 0x100
    ensures Pow256(2) == 0x1_0000
    ensures Pow256(4) == 0x1_0000_0000
    ensures Pow256(8) == 0x1_0000_0000_0000_0000
  {
    assert Pow256(1) == 0x100;
    assert Pow256(2) == 0x1_0000;
    assert Pow256(3) == 0x100_0000;
    assert Pow256(4) == 0x1_0000_0000;
    assert Pow256(5) == 0x100_0000_0000;
    assert Pow256(6) == 0x1_0000_0000_0000;
    assert Pow256(7) == 0x100_0000_0000_0000;
  }

  /** The w little-endian bytes of n. */
  function ToLE(n: nat, w: nat): (b: seq<byte>)
    requires n < Pow256(w)
    ensures |b| == w
  {
    if w == 0 then []
    else
      assert n / 256 < Pow256(w - 1);
      [(n % 256) as byte] + ToLE(n / 256, w - 1)
  }

  /** The number whose little-endian bytes are b. */
  function FromLE(b: seq<byte>): (n: nat)
    ensures n < Pow256(|b|)
  {
    if |b| == 0 then 0
    else
      var rest := FromLE(b[1..]);
      assert b[0] as nat + 256 * rest <= 255 + 256 * (Pow256(|b| - 1) - 1);
      b[0] as nat + 256 * rest
  }

  lemma {:induction false} FromToLE(n: nat, w: nat)
    requires n < Pow256(w)
    ensures FromLE(ToLE(n, w)) == n
  {
    if w > 0 {
      FromToLE(n / 256, w - 1);
      assert ToLE(n, w)[1..] == ToLE(n / 256, w - 1);
    }
  }

  lemma {:induction false} ToFromLE(b: seq<byte>)
    ensures ToLE(FromLE(b), |b|) == b
  {
    if |b| > 0 {
      var n := FromLE(b);
      ToFromLE(b[1..]);
      assert n % 256 == b[0] as nat;
      assert n / 256 == FromLE(b[1..]);
      assert ToLE(n, |b|) == [b[0]] + b[1..];
    }
  }

  /** Two-byte little-endian encoding of a 16-bit value. */
  function U16ToLE(x: u16): (b: seq<byte>)
    ensures |b| == 2
  {
    Pow256Widths();
    ToLE(x as nat, 2)
  }

  function U16FromLE(b: seq<byte>): u16
    requires |b| == 2
  {
    Pow256Widths();
    FromLE(b) as u16
  }

  function U32ToLE(x: u32): (b: seq<byte>)
    ensures |b| == 4
  {
    Pow256Widths();
    ToLE(x as nat, 4)
  }

  function U32FromLE(b: seq<byte>): u32
    requires |b| == 4
  {
    Pow256Widths();
    FromLE(b) as u32
  }

  function U64ToLE(x: u64): (b: seq<byte>)
    ensures |b| == 8
  {
    Pow256Widths();
    ToLE(x as nat, 8)
  }

  function U64FromLE(b: seq<byte>): u64
    requires |b| == 8
  {
    Pow256Widths();
    FromLE(b) as u64
  }

  lemma U16RoundTrip(x: u16, b: seq<byte>)
    requires |b| == 2
    ensures U16FromLE(U16ToLE(x)) == x
    ensures U16ToLE(U16FromLE(b)) == b
  {
    Pow256Widths();
    FromToLE(x as nat, 2);
    ToFromLE(b);
  }

  lemma U32RoundTrip(x: u32, b: seq<byte>)
    requires |b| == 4
    ensures U32FromLE(U32ToLE(x)) == x
    ensures U32ToLE(U32FromLE(b)) == b
  {
    Pow256Widths();
    FromToLE(x as nat, 4);
    ToFromLE(b);
  }

  lemma U64RoundTrip(x: u64, b: seq<byte>)
    requires |b| == 8
    ensures U64FromLE(U64ToLE(x)) == x
    ensures U64ToLE(U64FromLE(b)) == b
  {
    Pow256Widths();
    FromToLE(x as nat, 8);
    ToFromLE(b);
  }

  /** A run of n zero bytes. */
  function Zeros(n: nat): (z: seq<byte>)
    ensures |z| == n
    ensures forall k :: 0 <= k < n ==> z[k] == 0
  {
    seq(n, _ => 0)
  }
}
