/** The pixel conversion of `renderDisplayFrame` (BytePusherDriver.cs):
    each indexed pixel 0..215 is a point of a 6x6x6 colour cube written out
    as three bytes blue, green, red; indexes 216..255 stay black. */
module DisplayConversion {
  import opened Wrappers
  import opened Bytes

  /** Pixels per 256x256 frame and bytes of the 24-bit output buffer. */
  const FramePixels: nat := 256 * 256
  const FrameBytes: nat := 256 * 256 * 3
  /** Indexes above this are not colours. */
  const LastColour: Byte := 215
  /** Intensity step between neighbouring channel levels. */
  const LevelScale: nat := 0x33

  /** A point of the colour cube, each channel a level 0..5. */
  datatype Level = Level(red: nat, green: nat, blue: nat)

  predicate ValidLevel(l: Level)
  {
    l.red < 6 && l.green < 6 && l.blue < 6
  }

  /** The colour split in `renderDisplayFrame`: the blue level is the
      colour modulo 6, green is the next base-6 digit once blue has been
      removed, and red the digit after that. All operands are non-negative,
      so C#'s truncating division agrees with Dafny's. */
  function Decompose(c: Byte): (l: Level)
    requires c <= LastColour
    ensures ValidLevel(l)
    ensures 36 * l.red + 6 * l.green + l.blue == c
  {
    var blue := c % 6;
    var green := ((c - blue) / 6) % 6;
    var red := ((c - blue - 6 * green) / 36) % 6;
    Level(red, green, blue)
  }

  /** The colour index of a cube point. */
  function Compose(l: Level): (c: Byte)
    requires ValidLevel(l)
    ensures c <= LastColour
  {
    36 * l.red + 6 * l.green + l.blue
  }

  /** Decompose and Compose are inverse bijections between 0..215 and the
      cube. */
  lemma DecomposeCompose(l: Level)
    requires ValidLevel(l)
    ensures Decompose(Compose(l)) == l
  {
    var c: int := Compose(l);
    assert c == 6 * (6 * l.red + l.green) + l.blue;
    DivMod6(6 * l.red + l.green, l.blue);
    assert c - l.blue == 6 * (6 * l.red + l.green);
    DivMod6(l.red, l.green);
    assert c - l.blue - 6 * l.green == 36 * l.red;
  }

  lemma ComposeDecompose(c: Byte)
    requires c <= LastColour
    ensures Compose(Decompose(c)) == c
  {
  }

  /** Division by 6 undoes multiplication by 6 and leaves the remainder. */
  lemma DivMod6(q: nat, rem: nat)
    requires rem < 6
    ensures (6 * q + rem) / 6 == q && (6 * q + rem) % 6 == rem
    ensures (6 * q) / 6 == q && (36 * q) / 36 == q
  {
  }

  /** `(byte)(level * 0x33)`; the C# cast keeps the low 8 bits. */
  function Intensity(level: nat): Byte
  {
    (level * LevelScale) % 0x100
  }

  /** For a cube level the cast never truncates: levels 0..5 map to the
      intensities 0, 0x33, .., 0xFF, strictly increasing. */
  lemma IntensityExact(level: nat)
    requires level < 6
    ensures Intensity(level) == level * LevelScale
    ensures level > 0 ==> Intensity(level - 1) < Intensity(level)
  {
  }

  /** The three output bytes of one input pixel, blue first. */
  function PixelBytes(c: Byte): (bgr: seq<Byte>)
    ensures |bgr| == 3
    ensures forall k :: 0 <= k < 3 ==> bgr[k] % LevelScale == 0
  {
    if c > LastColour then [0, 0, 0]
    else
      var l := Decompose(c);
      IntensityExact(l.blue);
      IntensityExact(l.green);
      IntensityExact(l.red);
      [Intensity(l.blue), Intensity(l.green), Intensity(l.red)]
  }

  /** The output bytes of a pixel in closed form: blue c % 6, green
      (c / 6) % 6 and red c / 36, each scaled by 0x33; black above 215. */
  lemma PixelChannels(c: Byte)
    ensures c > LastColour ==> PixelBytes(c) == [0, 0, 0]
    ensures c <= LastColour ==>
      PixelBytes(c) == [(c % 6) * LevelScale, ((c / 6) % 6) * LevelScale, (c / 36) * LevelScale]
  {
    if c <= LastColour {
      var l := Decompose(c);
      IntensityExact(l.blue);
      IntensityExact(l.green);
      IntensityExact(l.red);
      assert c == 6 * (6 * l.red + l.green) + l.blue;
      DivMod6(6 * l.red + l.green, l.blue);
      DivMod6(l.red, l.green);
      assert c / 36 == l.red;
    }
  }

  /** The pixel loop of `renderDisplayFrame` over a zero-filled 256*256*3
      buffer with write position z. A pixel above 215 only advances z; a colour pixel writes
      at z, so it throws once z has passed the end of the buffer, which
      happens for a colour pixel beyond the first 65536. */
  method RenderDisplayFrame(data: seq<Byte>) returns (r: Option<seq<Byte>>)
    ensures r.Some? <==> forall k :: FramePixels <= k < |data| ==> data[k] > LastColour
    ensures r.Some? ==> |r.value| == FrameBytes
    ensures r.Some? ==> forall k, ch :: 0 <= k < |data| && k < FramePixels && 0 <= ch < 3 ==>
      r.value[3 * k + ch] == PixelBytes(data[k])[ch]
    ensures r.Some? ==> forall j :: 3 * |data| <= j < FrameBytes ==> r.value[j] == 0
  {
    var buf: seq<Byte> := seq(FrameBytes, _ => 0);
    var z := 0;
    for k := 0 to |data|
      invariant z == 3 * k
      invariant |buf| == FrameBytes
      invariant forall k' :: FramePixels <= k' < k ==> data[k'] > LastColour
      invariant forall k', ch :: 0 <= k' < k && k' < FramePixels && 0 <= ch < 3 ==>
        buf[3 * k' + ch] == PixelBytes(data[k'])[ch]
      invariant forall j :: z <= j < FrameBytes ==> buf[j] == 0
    {
      var c := data[k];
      if c > LastColour {
        z := z + 3;
      } else {
        if z >= FrameBytes {
          return None;
        }
        var l := Decompose(c);
        buf := buf[z := Intensity(l.blue)][z + 1 := Intensity(l.green)][z + 2 := Intensity(l.red)];
        z := z + 3;
      }
    }
    return Some(buf);
  }
}
