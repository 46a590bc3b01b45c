/**
 * The Heatmap filter: a blue-green-red gradient over the byte value.  The
 * ratio is computed with Python 2 integer division, so the gradient has
 * three flat bands.
 */
module Heatmap {
  import opened Common

  function Max(a: int, b: int): int
  {
    if a >= b then a else b
  }

  /** `hm(value)`: the colour of one byte value. */
  function Hm(v: byte): (c: Color)
    ensures ValidColor(c)
    ensures c.r + c.g + c.b == 255
    ensures c.r == 0 || c.b == 0
  {
    var ratio := 2 * v / 255;
    var b := Max(0, 255 * (1 - ratio));
    var r := Max(0, 255 * (ratio - 1));
    Rgb(r, 255 - b - r, b)
  }

  /**
   * The three bands: values below 128 are blue, 128 to 254 green, and
   * only 255 is red.
   */
  lemma HmBands(v: byte)
    ensures v < 128 <==> Hm(v) == Rgb(0, 0, 255)
    ensures 128 <= v < 255 <==> Hm(v) == Rgb(0, 255, 0)
    ensures v == 255 <==> Hm(v) == Rgb(255, 0, 0)
  {
    if v < 128 {
      assert 2 * v / 255 == 0;
    } else if v < 255 {
      assert 2 * v / 255 == 1;
    } else {
      assert 2 * v / 255 == 2;
    }
  }

  /** `do_filter`: one colour per byte, in order. */
  method DoFilter(buf: seq<byte>) returns (colors: seq<Color>)
    ensures |colors| == |buf|
    ensures forall i | 0 <= i < |buf| :: colors[i] == Hm(buf[i])
  {
    colors := [];
    var i := 0;
    while i < |buf|
      invariant 0 <= i <= |buf| && |colors| == i
      invariant forall j | 0 <= j < i :: colors[j] == Hm(buf[j])
    {
      colors := colors + [Hm(buf[i])];
      i := i + 1;
    }
  }
}
