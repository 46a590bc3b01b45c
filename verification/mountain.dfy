/**
 * The Mountain filter: bytes inside functions are cyan, bytes of string
 * literals green, everything else grey.  `get_func` and the string test
 * (`is_strlit` of the flags at the item head) are inputs.
 */
module Mountain {
  import opened Bits
  import opened Common

  /** `_is_string(ea)`: the item holding `ea` starts a string literal. */
  function IsString(ea: int, itemHead: int -> int, isStrLit: int -> bool): bool
  {
    isStrLit(itemHead(ea))
  }

  function MountainPixel(cell: Cell, addr: int, inFunc: int -> bool, isString: int -> bool): Pixel
  {
    if !cell.mapped then Pixel(false, None)
    else
      var c := Low8(cell.value);
      var ea := addr + cell.global;
      if inFunc(ea) then Pixel(true, Some(QRgb(0, c, c)))
      else if isString(ea) then Pixel(true, Some(QRgb(0, c, 0)))
      else Pixel(true, Some(QRgb(c, c, c)))
  }

  /**
   * `on_process_buffer`: one entry per byte of all buffers, in order.  The
   * address of a byte is the frame address plus its offset in the frame;
   * the function test wins over the string test.
   */
  function OnProcessBuffer(runs: seq<Run>, addr: int, inFunc: int -> bool, isString: int -> bool)
    : (r: seq<Pixel>)
    ensures |r| == TotalLen(runs)
    ensures forall k | 0 <= k < |r| ::
              var cell, ea := CellAt(runs, k), addr + k;
              var c := cell.value;
              && (!cell.mapped ==> r[k] == Pixel(false, None))
              && (cell.mapped && inFunc(ea) ==> r[k] == Pixel(true, Some(Rgb(0, c, c))))
              && (cell.mapped && !inFunc(ea) && isString(ea) ==> r[k] == Pixel(true, Some(Rgb(0, c, 0))))
              && (cell.mapped && !inFunc(ea) && !isString(ea) ==> r[k] == Pixel(true, Some(Rgb(c, c, c))))
  {
    Paint(runs, (cell: Cell) => MountainPixel(cell, addr, inFunc, isString))
  }
}
