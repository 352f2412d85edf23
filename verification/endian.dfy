/** Fixed-width unsigned integers in either byte order, as read and written by Go's
    `encoding/binary` (`Uint32`, `Uint64`, `PutUint32`, `PutUint64`). */
module Endian {
  import opened Arith

  type byte = x: int | 0 <= x < 256

  datatype ByteOrder = LittleEndian | BigEndian

  /** The moduli of Go's `uint32` and `uint64` arithmetic. */
  const Two32: nat := 0x1_0000_0000
  const Two64: nat := 0x1_0000_0000_0000_0000

  /** The number of distinct values an `n`-byte unsigned integer can hold. */
  function Pow256(n: nat): nat
  {
    Pow(256, n)
  }

  /** Bytes read least significant first. */
  function LeUint(bs: seq<byte>): (v: nat)
    ensures v < Pow256(|bs|)
  {
    if |bs| == 0 then 0 else bs[0] + 256 * LeUint(bs[1..])
  }

  /** Bytes read most significant first. */
  function BeUint(bs: seq<byte>): (v: nat)
    ensures v < Pow256(|bs|)
  {
    if |bs| == 0 then 0 else 256 * BeUint(bs[..|bs| - 1]) + bs[|bs| - 1]
  }

  function Uint(order: ByteOrder, bs: seq<byte>): (v: nat)
    ensures v < Pow256(|bs|)
  {
    match order
    case LittleEndian => LeUint(bs)
    case BigEndian => BeUint(bs)
  }

  /** The low `n` bytes of `v`, least significant first. */
  function LeBytes(v: nat, n: nat): (bs: seq<byte>)
    ensures |bs| == n
  {
    if n == 0 then [] else [v % 256] + LeBytes(v / 256, n - 1)
  }

  /** The low `n` bytes of `v`, most significant first. */
  function BeBytes(v: nat, n: nat): (bs: seq<byte>)
    ensures |bs| == n
  {
    if n == 0 then [] else BeBytes(v / 256, n - 1) + [v % 256]
  }

  function Bytes(order: ByteOrder, v: nat, n: nat): (bs: seq<byte>)
    ensures |bs| == n
  {
    match order
    case LittleEndian => LeBytes(v, n)
    case BigEndian => BeBytes(v, n)
  }

  lemma {:induction false} LeRoundTrip(v: nat, n: nat)
    requires v < Pow256(n)
    ensures LeUint(LeBytes(v, n)) == v
  {
    if n > 0 {
      var bs := LeBytes(v, n);
      assert bs[1..] == LeBytes(v / 256, n - 1);
      LeRoundTrip(v / 256, n - 1);
    }
  }

  lemma {:induction false} BeRoundTrip(v: nat, n: nat)
    requires v < Pow256(n)
    ensures BeUint(BeBytes(v, n)) == v
  {
    if n > 0 {
      var bs := BeBytes(v, n);
      assert bs[..n - 1] == BeBytes(v / 256, n - 1);
      BeRoundTrip(v / 256, n - 1);
    }
  }

  /** Writing a value that fits in `n` bytes and reading it back gives the value. */
  lemma UintRoundTrip(order: ByteOrder, v: nat, n: nat)
    requires v < Pow256(n)
    ensures Uint(order, Bytes(order, v, n)) == v
  {
    match order
    case LittleEndian => LeRoundTrip(v, n);
    case BigEndian => BeRoundTrip(v, n);
  }

  /** Splitting `256 * hi + lo` back into its low byte and the rest. */
  lemma DivModByte(hi: nat, lo: byte)
    ensures (256 * hi + lo) % 256 == lo && (256 * hi + lo) / 256 == hi
  {
  }

  lemma {:induction false} LeBytesOfUint(bs: seq<byte>)
    ensures LeBytes(LeUint(bs), |bs|) == bs
  {
    if |bs| > 0 {
      DivModByte(LeUint(bs[1..]), bs[0]);
      LeBytesOfUint(bs[1..]);
    }
  }

  lemma {:induction false} BeBytesOfUint(bs: seq<byte>)
    ensures BeBytes(BeUint(bs), |bs|) == bs
  {
    if |bs| > 0 {
      var n := |bs|;
      DivModByte(BeUint(bs[..n - 1]), bs[n - 1]);
      BeBytesOfUint(bs[..n - 1]);
      assert bs == bs[..n - 1] + [bs[n - 1]];
    }
  }

  /** Reading `n` bytes and writing the value back gives the same bytes. */
  lemma BytesOfUint(order: ByteOrder, bs: seq<byte>)
    ensures Bytes(order, Uint(order, bs), |bs|) == bs
  {
    match order
    case LittleEndian => LeBytesOfUint(bs);
    case BigEndian => BeBytesOfUint(bs);
  }

  /** The widths used by the model, written out. */
  lemma Pow256Values()
    ensures Pow256(4) == 0x1_0000_0000
    ensures Pow256(8) == 0x1_0000_0000_0000_0000
  {
  }
}
