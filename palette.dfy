/**
 * The palette conversion in `Renderer::new`: the 256-colour palette lump stores RGB
 * triples, the GPU texture wants RGBA, so every triple is copied and followed by an opaque
 * alpha byte.
 */
module Render {
  import opened Common

  /** The alpha byte written after every colour: fully opaque. */
  const OPAQUE: byte := 255

  /** The RGBA bytes of an RGB palette, triple by triple, each followed by `OPAQUE`. */
  function Rgba(palette: seq<byte>): seq<byte>
    requires |palette| % 3 == 0
  {
    if |palette| == 0 then []
    else
      var n := |palette|;
      Rgba(palette[..n - 3]) + [palette[n - 3], palette[n - 2], palette[n - 1], OPAQUE]
  }

  /** The colours of an RGBA palette: every fourth (alpha) byte dropped. */
  function Rgb(pm: seq<byte>): seq<byte>
    requires |pm| % 4 == 0
  {
    if |pm| == 0 then []
    else
      var n := |pm|;
      Rgb(pm[..n - 4]) + pm[n - 4 .. n - 1]
  }

  /**
   * One 4-byte entry per triple: byte `4 i + k` of the result is byte `3 i + k` of the
   * palette for `k < 3`, and byte `4 i + 3` is the opaque alpha.
   */
  lemma {:induction false} LemmaRgbaLayout(palette: seq<byte>)
    requires |palette| % 3 == 0
    ensures |Rgba(palette)| == 4 * (|palette| / 3)
    ensures forall j :: 0 <= j < |Rgba(palette)| ==>
              Rgba(palette)[j] == if j % 4 == 3 then OPAQUE else palette[3 * (j / 4) + j % 4]
  {
    if |palette| > 0 {
      var n := |palette|;
      var init := palette[..n - 3];
      LemmaRgbaLayout(init);
      var pm := Rgba(palette);
      assert pm == Rgba(init) + [palette[n - 3], palette[n - 2], palette[n - 1], OPAQUE];
      forall j | 0 <= j < |pm|
        ensures pm[j] == if j % 4 == 3 then OPAQUE else palette[3 * (j / 4) + j % 4]
      {
        if j < |pm| - 4 {
          assert pm[j] == Rgba(init)[j];
          if j % 4 != 3 {
            assert init[3 * (j / 4) + j % 4] == palette[3 * (j / 4) + j % 4];
          }
        } else {
          assert j / 4 == n / 3 - 1;
        }
      }
    }
  }

  /** Dropping the alpha bytes again gives back the palette the expansion started from. */
  lemma {:induction false} LemmaRgbOfRgba(palette: seq<byte>)
    requires |palette| % 3 == 0
    ensures |Rgba(palette)| % 4 == 0 && Rgb(Rgba(palette)) == palette
  {
    if |palette| > 0 {
      var n := |palette|;
      var init := palette[..n - 3];
      LemmaRgbOfRgba(init);
      var pm := Rgba(palette);
      var m := |pm|;
      assert pm[..m - 4] == Rgba(init);
      assert pm[m - 4 .. m - 1] == palette[n - 3..];
      assert palette == init + palette[n - 3..];
    }
  }

  /**
   * The loop over `palette_map.chunks(3)`: push the chunk's three bytes and 255. A length
   * that is not a multiple of three leaves a short last chunk, and indexing its missing
   * second or third byte panics.
   */
  method ExpandPalette(palette: seq<byte>) returns (res: Result<seq<byte>>)
    ensures res.Err? <==> |palette| % 3 != 0
    ensures res.Err? ==> res.error == Panic
    ensures res.Ok? ==> res.value == Rgba(palette)
  {
    var pm: seq<byte> := [];
    var i := 0;
    while i < |palette|
      invariant 0 <= i <= |palette| && i % 3 == 0
      invariant pm == Rgba(palette[..i])
    {
      var data := palette[i .. if i + 3 <= |palette| then i + 3 else |palette|];
      if |data| < 3 {
        return Err(Panic);
      }
      assert palette[..i + 3][..i] == palette[..i];
      pm := pm + [data[0], data[1], data[2], OPAQUE];
      i := i + 3;
    }
    assert palette[..i] == palette;
    return Ok(pm);
  }
}
