/** Bytes and big-endian numbers: the arithmetic behind `getVal`. */
module Bytes {

  /** A C# `byte`. */
  type Byte = b: int | 0 <= b < 256

  /** A C# `ushort`, as the value the VM receives from `getKeyPress`. */
  type UShort = s: int | 0 <= s < 0x1_0000

  /** 256^k */
  function Pow256(k: nat): (p: nat)
    ensures p >= 1
  {
    if k == 0 then 1 else 256 * Pow256(k - 1)
  }

  /** The reference reading of a byte string as a big-endian number:
      sum of bytes[i] * 256^(|bytes|-1-i), most significant byte first. */
  function BigEndian(bytes: seq<Byte>): nat
  {
    if |bytes| == 0 then 0 else bytes[0] * Pow256(|bytes| - 1) + BigEndian(bytes[1..])
  }

  /** The accumulation loop of `getVal`: for each byte in order, the
      accumulator is shifted left by 8 and the byte added. The
      accumulator never decreases. `v << 8` is `v * 256` here: the values
      stay below 2^24 (see `ShiftInIsBigEndian`), so the C# `int` shift
      never overflows. */
  function ShiftIn(v: nat, bytes: seq<Byte>): (r: nat)
    ensures r >= v
    decreases |bytes|
  {
    if |bytes| == 0 then v else ShiftIn(v * 256 + bytes[0], bytes[1..])
  }

  lemma {:induction false} BigEndianBound(bytes: seq<Byte>)
    ensures BigEndian(bytes) < Pow256(|bytes|)
    decreases |bytes|
  {
    if |bytes| > 0 {
      var p := Pow256(|bytes| - 1);
      var b: int := bytes[0];
      BigEndianBound(bytes[1..]);
      assert BigEndian(bytes) == b * p + BigEndian(bytes[1..]);
      MulMonotone(b + 1, 256, p);
      assert (b + 1) * p == b * p + p;
    }
  }

  lemma MulMonotone(a: int, c: int, p: nat)
    requires a <= c
    ensures a * p <= c * p
  {
  }

  /** The source's shift-and-add loop computes the reference big-endian
      value, shifted past any value already accumulated. */
  lemma {:induction false} ShiftInIsBigEndian(v: nat, bytes: seq<Byte>)
    ensures ShiftIn(v, bytes) == v * Pow256(|bytes|) + BigEndian(bytes)
    decreases |bytes|
  {
    if |bytes| > 0 {
      var p := Pow256(|bytes| - 1);
      var b: int := bytes[0];
      ShiftInIsBigEndian(v * 256 + b, bytes[1..]);
      assert ShiftIn(v, bytes) == (v * 256 + b) * p + BigEndian(bytes[1..]);
      ShiftDistributes(v, b, p);
    }
  }

  /** One shift-and-add followed by a scaling by p, multiplied out. */
  lemma ShiftDistributes(v: int, b: int, p: int)
    ensures (v * 256 + b) * p == v * (256 * p) + b * p
  {
  }

  /** Closed forms for the widths the VM uses. */
  lemma BigEndianWidths(bytes: seq<Byte>)
    ensures |bytes| == 1 ==> BigEndian(bytes) == bytes[0]
    ensures |bytes| == 2 ==> BigEndian(bytes) == bytes[0] as int * 0x100 + bytes[1]
    ensures |bytes| == 3 ==> BigEndian(bytes) == bytes[0] as int * 0x1_0000 + bytes[1] as int * 0x100 + bytes[2]
  {
    if |bytes| == 3 {
      assert bytes[1..][1..] == bytes[2..];
    }
  }
}
