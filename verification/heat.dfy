/**
 * The Heat filter: the byte value becomes the red channel.  The filter has
 * no state, so its activation and right-click hooks (which only print)
 * have nothing to change.
 */
module Heat {
  import opened Common

  /** `do_filter`: one colour per byte, in order, `(c, 0, 0)`. */
  method DoFilter(buf: seq<byte>) returns (colors: seq<Color>)
    ensures |colors| == |buf|
    ensures forall i | 0 <= i < |buf| ::
              ValidColor(colors[i]) && colors[i].r == buf[i] && colors[i].g == 0 && colors[i].b == 0
  {
    colors := [];
    var i := 0;
    while i < |buf|
      invariant 0 <= i <= |buf| && |colors| == i
      invariant forall j | 0 <= j < i ::
                  ValidColor(colors[j]) && colors[j].r == buf[j] && colors[j].g == 0 && colors[j].b == 0
    {
      colors := colors + [Rgb(buf[i] % 256, 0, 0)];
      i := i + 1;
    }
  }
}
