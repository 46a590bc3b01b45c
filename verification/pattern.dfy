/**
 * The Pattern filter: the older-interface twin of the Regex filter.  Its
 * state, prompt loop and tint are those of `Regex`; only unmapped bytes
 * differ, being drawn as `(False, 0)`.
 */
module Pattern {
  import opened Common
  import Regex

  function PatternPixel(s: Regex.State, cell: Cell, matches: Regex.Matcher): Pixel
  {
    if cell.mapped then Pixel(true, Some(Regex.Tint(cell.value, Regex.Matched(s, cell, matches))))
    else Pixel(false, Some(Hex(0)))
  }

  /**
   * `render_img`: one entry per byte of all buffers, in order; matches are
   * searched per buffer; unmapped bytes are `(False, 0)`.
   */
  function RenderImg(s: Regex.State, runs: seq<Run>, matches: Regex.Matcher): (r: seq<Pixel>)
    ensures |r| == TotalLen(runs)
    ensures forall k | 0 <= k < |r| ::
              var cell := CellAt(runs, k);
              && (!cell.mapped ==> r[k] == Pixel(false, Some(Rgb(0, 0, 0))))
              && (cell.mapped ==> r[k] == Pixel(true, Some(Regex.Tint(cell.value,
                                     s.regex.Some? && cell.local in matches(s.regex.value, cell.data)))))
  {
    Paint(runs, (cell: Cell) => PatternPixel(s, cell, matches))
  }

  /** The two filters agree on every mapped byte and differ only in how unmapped bytes are drawn. */
  lemma AgreesWithRegex(s: Regex.State, runs: seq<Run>, matches: Regex.Matcher, k: nat)
    requires k < TotalLen(runs)
    ensures RenderImg(s, runs, matches)[k].mapped == Regex.OnProcessBuffer(s, runs, matches)[k].mapped
    ensures CellAt(runs, k).mapped ==>
              RenderImg(s, runs, matches)[k] == Regex.OnProcessBuffer(s, runs, matches)[k]
  {
  }
}
