/** The sample conversion of `renderAudioFrame` (BytePusherDriver.cs): each
    signed 8-bit sample becomes a 16-bit little-endian sample whose low
    byte is 0 and whose high byte is the original sample. */
module AudioConversion {
  import opened Bytes

  /** The sample loop of `renderAudioFrame`: every input byte becomes two
      output bytes, a zero followed by the byte itself, in a buffer twice
      the input length. */
  function Widen(data: seq<Byte>): (out: seq<Byte>)
    ensures |out| == 2 * |data|
    ensures forall k :: 0 <= k < |data| ==> out[2 * k] == 0 && out[2 * k + 1] == data[k]
  {
    if |data| == 0 then []
    else
      var rest := Widen(data[1..]);
      var out := [0, data[0]] + rest;
      assert forall k :: 1 <= k < |data| ==> out[2 * k] == 0 && out[2 * k + 1] == data[k] by {
        forall k | 1 <= k < |data|
          ensures out[2 * k] == 0 && out[2 * k + 1] == data[k]
        {
          assert out[2 * k] == rest[2 * (k - 1)];
          assert out[2 * k + 1] == rest[2 * (k - 1) + 1];
        }
      }
      out
  }

  /** The inverse reading: the high byte of every 16-bit sample. */
  function HighBytes(out: seq<Byte>): (data: seq<Byte>)
    ensures |data| == |out| / 2
  {
    seq(|out| / 2, k requires 0 <= k < |out| / 2 => out[2 * k + 1])
  }

  /** Widening loses nothing: the original samples are the high bytes. */
  lemma HighBytesOfWiden(data: seq<Byte>)
    ensures HighBytes(Widen(data)) == data
  {
  }

  /** Two's-complement readings of an 8-bit and a 16-bit sample. */
  function Signed8(b: Byte): int
  {
    if b < 0x80 then b else b - 0x100
  }

  function Signed16(lo: Byte, hi: Byte): int
  {
    var v := hi as int * 0x100 + lo;
    if v < 0x8000 then v else v - 0x1_0000
  }

  /** A 16-bit sample with low byte 0 is its high byte's 8-bit sample
      scaled by 256. */
  lemma ZeroLowByte(hi: Byte)
    ensures Signed16(0, hi) == 0x100 * Signed8(hi)
  {
    var h: int := hi;
    assert hi as int * 0x100 + 0 == 0x100 * h;
    if h < 0x80 {
      assert 0x100 * h < 0x8000;
    } else {
      assert 0x100 * h >= 0x8000;
      assert 0x100 * h - 0x1_0000 == 0x100 * (h - 0x100);
    }
  }

  /** Sample k of the 16-bit little-endian stream is sample k of the 8-bit
      stream scaled by 256: the sign and the waveform are kept. */
  lemma WidenScalesSamples(data: seq<Byte>, k: nat)
    requires k < |data|
    ensures Signed16(Widen(data)[2 * k], Widen(data)[2 * k + 1]) == 0x100 * Signed8(data[k])
  {
    ZeroLowByte(data[k]);
  }
}
