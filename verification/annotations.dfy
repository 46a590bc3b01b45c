/**
 * The Annotations example filter: the item under the cursor is drawn in
 * orange, everything else in a five-step grey palette; the side panel
 * shows four lines about the cursor.
 */
module Annotations {
  import opened Common

  /** The "space-gray" palette, darkest first. */
  const Colormap: seq<int> := [0x343d46, 0x4f5b66, 0x65737e, 0xa7adba, 0xc0c5ce]

  /** `qRgb(0xFF, 0x45, 0)`. */
  const Orange: Color := Rgb(0xFF, 0x45, 0)

  function AnnPixel(cell: Cell, addr: int, head: int, tail: int): Pixel
  {
    var inItem := head <= addr + cell.global < tail;
    if cell.mapped then
      if inItem then Pixel(true, Some(Orange))
      else Pixel(true, Some(Hex(Colormap[PaletteIndex(cell.value)])))
    else if inItem then Pixel(false, Some(Orange))
    else Pixel(false, None)
  }

  /**
   * `render_img`.  With a cursor, one entry per byte of all buffers: bytes
   * of the item under the cursor are orange (also when unmapped), other
   * mapped bytes take the palette entry of their value, other unmapped
   * bytes are transparent.  Without a cursor the item bounds are never
   * assigned, so the first byte raises `NameError` (`None` here).
   */
  function RenderImg(runs: seq<Run>, addr: int, mouse: Option<int>,
                     itemHead: int -> int, itemEnd: int -> int): (r: Option<seq<Pixel>>)
    ensures r.None? <==> mouse.None? && TotalLen(runs) > 0
    ensures r.Some? ==> |r.value| == TotalLen(runs)
    ensures r.Some? ==> forall k | 0 <= k < |r.value| ::
              var cell := CellAt(runs, k);
              var ea := addr + mouse.value;
              var inItem := itemHead(ea) <= addr + k < itemEnd(ea);
              && r.value[k].mapped == cell.mapped
              && (inItem ==> r.value[k].color == Some(Rgb(0xFF, 0x45, 0)))
              && (!inItem && cell.mapped ==> r.value[k].color == Some(Hex(Colormap[cell.value / 63])))
              && (!inItem && !cell.mapped ==> r.value[k].color == None)
  {
    if mouse.None? then
      if TotalLen(runs) > 0 then None else Some([])
    else
      var ea := addr + mouse.value;
      var head, tail := itemHead(ea), itemEnd(ea);
      Some(Paint(runs, (cell: Cell) => AnnPixel(cell, addr, head, tail)))
  }

  /**
   * `get_annotations`: four lines, all in the palette's lightest colour;
   * only the first has a target, the cursor address, with an arrow.  The
   * byte value, item size and name come from IDA.  Without a cursor the
   * address sum raises `TypeError` (`None` here).
   */
  function GetAnnotations(address: int, mouse: Option<int>, getByte: int -> byte, itemSize: int -> int,
                          itemHead: int -> int, name: int -> string): (r: Option<seq<Annotation>>)
    ensures r.None? <==> mouse.None?
    ensures r.Some? ==> |r.value| == 4
    ensures r.Some? ==> var ea := address + mouse.value;
              && r.value[0].target == Some(ea) && r.value[0].arrow == Some(Hex(Colormap[4]))
              && r.value[0].text.args == [Num(ea)]
              && r.value[1].text.args == [Num(getByte(ea))]
              && r.value[2].text.args == [Num(itemSize(itemHead(ea)))]
              && r.value[3].text.args == [Str(name(itemHead(ea)))]
    ensures r.Some? ==> forall i | 1 <= i < 4 :: r.value[i].target == None && r.value[i].arrow == None
    ensures r.Some? ==> forall i | 0 <= i < 4 :: r.value[i].textColor == Some(Hex(0xc0c5ce))
  {
    if mouse.None? then None
    else
      var ea := address + mouse.value;
      var light := Hex(Colormap[|Colormap| - 1]);
      Some([Annotation(Some(ea), Some(light), Text("%X (Cursor)", [Num(ea)]), Some(light)),
            Line("  %02X (byte value)", [Num(getByte(ea))], Some(light)),
            Line("  %d (item size)", [Num(itemSize(itemHead(ea)))], Some(light)),
            Line("  %s", [Str(name(itemHead(ea)))], Some(light))])
  }
}
