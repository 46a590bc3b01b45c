/**
 * The Crawl filter: highlights the item (mode 0) or the function (mode 1)
 * under the cursor; the right button switches modes.  IDA's item bounds
 * and function lookup are inputs.
 */
module Crawl {
  import opened Common

  type bit = x: int | 0 <= x < 2

  /** `switch`: 0 highlights items, 1 functions; 1 after `__init__`. */
  datatype State = State(switch: bit)

  const HlColor: int := 100

  function Initial(): State
  {
    State(1)
  }

  datatype Button = Left | Middle | Right

  /** `on_mb_click`: the right button flips the mode (`switch ^= 1`). */
  function OnMbClick(s: State, button: Button): (r: State)
    ensures button == Right ==> r.switch != s.switch
    ensures button != Right ==> r == s
  {
    if button == Right then State(1 - s.switch) else s
  }

  /** Two right clicks give the mode back. */
  lemma ToggleTwice(s: State)
    ensures OnMbClick(OnMbClick(s, Right), Right) == s
  {
  }

  /** Bounds of the function holding an address, as `get_func` reports them. */
  type FuncOf = int -> Option<(int, int)>

  /**
   * The highlighted range `[head, tail)` for a cursor at `ea`: the item's
   * bounds in mode 0; the function's bounds in mode 1, or BADADDR for both
   * ends when no function holds `ea`.
   */
  function Bounds(s: State, ea: int, itemHead: int -> int, itemEnd: int -> int, funcOf: FuncOf): (int, int)
  {
    if s.switch == 0 then (itemHead(ea), itemEnd(ea))
    else match funcOf(ea)
      case Some(f) => f
      case None => (BADADDR, BADADDR)
  }

  function CrawlPixel(cell: Cell, highlight: bool): Pixel
  {
    var c := cell.value;
    if !cell.mapped then Pixel(false, Some(Hex(0)))
    else if highlight then Pixel(true, Some(QRgb(c, 0xFF, HlColor)))
    else Pixel(true, Some(QRgb(c, 0, 0)))
  }

  predicate Highlighted(s: State, addr: int, mouse: Option<int>, k: int,
                        itemHead: int -> int, itemEnd: int -> int, funcOf: FuncOf)
  {
    mouse.Some? &&
    var b := Bounds(s, addr + mouse.value, itemHead, itemEnd, funcOf);
    b.0 <= addr + k < b.1
  }

  /**
   * `render_img`: one entry per byte of all buffers, in order; a mapped
   * byte is highlighted exactly when there is a cursor and the byte's
   * address lies in the range found for it; unmapped bytes are `(False, 0)`.
   */
  function RenderImg(s: State, runs: seq<Run>, addr: int, mouse: Option<int>,
                     itemHead: int -> int, itemEnd: int -> int, funcOf: FuncOf): (r: seq<Pixel>)
    ensures |r| == TotalLen(runs)
    ensures forall k | 0 <= k < |r| ::
              var cell := CellAt(runs, k);
              var highlight := mouse.Some? &&
                               (var b := Bounds(s, addr + mouse.value, itemHead, itemEnd, funcOf);
                                b.0 <= addr + k < b.1);
              && (!cell.mapped ==> r[k] == Pixel(false, Some(Rgb(0, 0, 0))))
              && (cell.mapped && highlight ==> r[k] == Pixel(true, Some(Rgb(cell.value, 0xFF, 100))))
              && (cell.mapped && !highlight ==> r[k] == Pixel(true, Some(Rgb(cell.value, 0, 0))))
  {
    Paint(runs, (cell: Cell) => CrawlPixel(cell, Highlighted(s, addr, mouse, cell.global, itemHead, itemEnd, funcOf)))
  }

  /**
   * In function mode, a cursor outside every function highlights nothing:
   * both ends of the range are BADADDR.
   */
  lemma NoFunctionNoHighlight(s: State, runs: seq<Run>, addr: int, m: int,
                              itemHead: int -> int, itemEnd: int -> int, funcOf: FuncOf, k: nat)
    requires s.switch == 1 && funcOf(addr + m).None?
    requires k < TotalLen(runs) && CellAt(runs, k).mapped
    ensures RenderImg(s, runs, addr, Some(m), itemHead, itemEnd, funcOf)[k]
              == Pixel(true, Some(Rgb(CellAt(runs, k).value, 0, 0)))
  {
  }
}
