/**
 * The viewer widget (`PixelWidget`): zoom, width and offset state, the
 * address it shows, the mapping from pointer positions to pixels, the
 * wheel and drag handlers, and the frame layout of `_plot_buffer`.
 * All divisions are Python 2 integer divisions, i.e. floor divisions; the
 * divisors here are positive, where Dafny's `/` agrees with them.
 */
module Viewport {
  import opened Bits
  import opened Common
  import ByteSource

  /** The modifier key held down, as `keyPressEvent` records it. */
  datatype Key = NoKey | Control | Alt | Shift | OtherKey

  /** The state `PixelWidget` keeps between events. */
  datatype Widget = Widget(
    pixelSize: int,          // zoom: side of one pixel on screen
    maxPixelsPerLine: int,   // width: pixels per row
    maxPixelsTotal: int,     // pixels in the last frame
    y: int,                  // pointer y at the previous mouse event
    offs: int,               // shown address minus base
    base: int,               // base of the segment holding the shown address
    mouseOffs: int,          // pixel under the pointer
    numbytes: int,           // bytes drawn in the last frame
    sync: bool,              // follow the disassembler's cursor
    showcursor: bool)        // invert the pixel under the pointer

  /** The widget as `__init__` leaves it. */
  function Initial(): (w: Widget)
    ensures Valid(w) && GetAddress(w) == 0
    ensures w.pixelSize == 5 && w.maxPixelsPerLine == 32 && w.sync && w.showcursor
  {
    Widget(5, 32, 0, 0, 0, 0, 0, 0, true, true)
  }

  /** Zoom and width never drop below one. */
  predicate Valid(w: Widget)
  {
    w.pixelSize >= 1 && w.maxPixelsPerLine >= 1
  }

  /** `get_address`: the address of the first pixel. */
  function GetAddress(w: Widget): int
  {
    w.base + w.offs
  }

  /** `get_cursor_address`: the address of the pixel under the pointer. */
  function GetCursorAddress(w: Widget): int
  {
    GetAddress(w) + w.mouseOffs
  }

  function Max(a: int, b: int): (m: int)
    ensures m >= a && m >= b && (m == a || m == b)
  {
    if a >= b then a else b
  }

  function Min(a: int, b: int): (m: int)
    ensures m <= a && m <= b && (m == a || m == b)
  {
    if a <= b then a else b
  }

  /** `set_zoom_delta`: the zoom moves by `d` but stays at least one. */
  function SetZoomDelta(w: Widget, d: int): (r: Widget)
    ensures r.pixelSize >= 1
    ensures w.pixelSize + d >= 1 ==> r.pixelSize == w.pixelSize + d
    ensures w.pixelSize + d < 1 ==> r.pixelSize == 1
    ensures r.(pixelSize := w.pixelSize) == w
  {
    w.(pixelSize := Max(1, w.pixelSize + d))
  }

  /** `set_width_delta`: the width moves by `d` but stays at least one. */
  function SetWidthDelta(w: Widget, d: int): (r: Widget)
    ensures r.maxPixelsPerLine >= 1
    ensures w.maxPixelsPerLine + d >= 1 ==> r.maxPixelsPerLine == w.maxPixelsPerLine + d
    ensures w.maxPixelsPerLine + d < 1 ==> r.maxPixelsPerLine == 1
    ensures r.(maxPixelsPerLine := w.maxPixelsPerLine) == w
  {
    w.(maxPixelsPerLine := Max(1, w.maxPixelsPerLine + d))
  }

  /**
   * `set_offset_delta`: a positive delta moves towards lower addresses; the
   * offset is clamped at zero from below and not clamped from above.
   */
  function SetOffsetDelta(w: Widget, d: int): (r: Widget)
    ensures r.offs >= 0
    ensures w.offs - d >= 0 ==> r.offs == w.offs - d
    ensures w.offs - d < 0 ==> r.offs == 0
    ensures r.(offs := w.offs) == w
  {
    w.(offs := Max(0, w.offs - d))
  }

  /**
   * `set_addr`: the base becomes the base of the segment holding `ea` (or
   * BADADDR) and the offset is whatever makes base plus offset equal `ea`.
   */
  function SetAddr(w: Widget, segs: seq<ByteSource.Segment>, ea: int): (r: Widget)
    ensures GetAddress(r) == ea
    ensures r.base == ByteSource.GetBase(segs, ea)
    ensures r.(base := w.base, offs := w.offs) == w
  {
    var base := ByteSource.GetBase(segs, ea);
    w.(base := base, offs := ea - base)
  }

  /** Every handler keeps zoom and width at least one. */
  lemma ValidPreserved(w: Widget, d: int, segs: seq<ByteSource.Segment>, ea: int)
    requires Valid(w)
    ensures Valid(SetZoomDelta(w, d)) && Valid(SetWidthDelta(w, d))
    ensures Valid(SetOffsetDelta(w, d)) && Valid(SetAddr(w, segs, ea))
  {
  }

  /**
   * Scrolling by `d` shifts the shown address by exactly `-d` while the
   * offset stays non-negative, and two scrolls compose into one.
   */
  lemma {:induction false} ScrollShiftsAddress(w: Widget, d: int, e: int)
    requires w.offs - d >= 0 && w.offs - d - e >= 0
    ensures GetAddress(SetOffsetDelta(w, d)) == GetAddress(w) - d
    ensures SetOffsetDelta(SetOffsetDelta(w, d), e) == SetOffsetDelta(w, d + e)
  {
  }

  /**
   * After `set_addr(ea)`, the cursor address is `ea` plus the pointer's
   * pixel offset, whichever segment (if any) holds `ea`.
   */
  lemma CursorAfterSetAddr(w: Widget, segs: seq<ByteSource.Segment>, ea: int)
    ensures GetCursorAddress(SetAddr(w, segs, ea)) == ea + w.mouseOffs
  {
  }

  /**
   * `_get_offs_by_pos`: the pixel under pointer position (`px`, `py`); the
   * column is capped at the last column and the row at the last full row.
   */
  function OffsByPos(w: Widget, px: int, py: int): (offs: int)
    requires Valid(w)
    ensures px >= 0 && py >= 0 && w.maxPixelsTotal >= w.maxPixelsPerLine ==>
              0 <= offs < w.maxPixelsTotal
    ensures offs % w.maxPixelsPerLine == Min(px / w.pixelSize, w.maxPixelsPerLine - 1) % w.maxPixelsPerLine
  {
    var elemX := Min(px / w.pixelSize, w.maxPixelsPerLine - 1);
    var elemY := Min(py / w.pixelSize, w.maxPixelsTotal / w.maxPixelsPerLine - 1);
    ModOfRow(elemY, elemX, w.maxPixelsPerLine);
    if px >= 0 && py >= 0 && w.maxPixelsTotal >= w.maxPixelsPerLine then
      RowBound(elemY, elemX, w.maxPixelsPerLine, w.maxPixelsTotal);
      elemY * w.maxPixelsPerLine + elemX
    else
      elemY * w.maxPixelsPerLine + elemX
  }

  lemma RowBound(row: int, col: int, width: int, total: int)
    requires width >= 1 && col <= width - 1 && row <= total / width - 1
    requires col >= 0 && row >= 0 && total >= 0
    ensures row * width + col < total
  {
    var rows := total / width;
    MulMono(row, rows - 1, width);
    assert (rows - 1) * width == rows * width - width;
    assert rows * width <= total;
  }

  lemma ModOfRow(row: int, col: int, width: int)
    requires width >= 1
    ensures (row * width + col) % width == col % width
  {
    var q, m := col / width, col % width;
    assert (row + q) * width == row * width + q * width;
    DivModUnique(row * width + col, width, row + q, m);
  }

  lemma MulNonneg(a: int, b: int)
    requires a >= 0 && b >= 0
    ensures a * b >= 0
  {
  }

  lemma MulMono(a: int, b: int, c: int)
    requires a <= b && c >= 0
    ensures a * c <= b * c
  {
  }

  /** Double-click target: the address of the pixel under the pointer. */
  function JumpTarget(w: Widget, px: int, py: int): (ea: int)
    requires Valid(w)
    ensures px >= 0 && py >= 0 && w.maxPixelsTotal >= w.maxPixelsPerLine ==>
              GetAddress(w) <= ea < GetAddress(w) + w.maxPixelsTotal
  {
    GetAddress(w) + OffsByPos(w, px, py)
  }

  /** `wheelEvent`: notches of 120 units, applied by the held modifier. */
  function Wheel(w: Widget, key: Key, angleDelta: int): (r: Widget)
    requires Valid(w)
    ensures Valid(r)
    ensures key == Control ==> r == SetZoomDelta(w, angleDelta / 120)
    ensures key == Alt ==> r == SetWidthDelta(w, angleDelta / 120)
    ensures key == Shift ==> r == SetOffsetDelta(w, angleDelta / 120)
    ensures key !in {Control, Alt, Shift} ==>
              r == SetOffsetDelta(w, (angleDelta / 120) * w.maxPixelsPerLine)
  {
    var delta := angleDelta / 120;
    match key
    case Control => SetZoomDelta(w, delta)
    case Alt => SetWidthDelta(w, delta)
    case Shift => SetOffsetDelta(w, delta)
    case _ => SetOffsetDelta(w, delta * w.maxPixelsPerLine)
  }

  /**
   * `mouseMoveEvent`: with no button held the pointer's pixel is tracked;
   * a drag zooms (Control), widens (Alt), or scrolls by the vertical
   * distance, in whole rows unless Shift is held.  The pointer's y is kept.
   */
  function MouseMove(w: Widget, key: Key, buttonsHeld: bool, px: int, py: int): (r: Widget)
    requires Valid(w)
    ensures Valid(r) && r.y == py
    ensures !buttonsHeld ==> r == w.(mouseOffs := OffsByPos(w, px, py), y := py)
    ensures buttonsHeld && key == Control ==>
              r.pixelSize == Max(1, w.pixelSize + (if py > w.y then -1 else 1))
    ensures buttonsHeld && key == Alt ==>
              r.maxPixelsPerLine == Max(1, w.maxPixelsPerLine + (if py > w.y then -1 else 1))
    ensures buttonsHeld && key !in {Control, Alt} && py == w.y ==> r == w
    ensures buttonsHeld && key !in {Control, Alt, Shift} && w.offs - (py - w.y) * w.maxPixelsPerLine >= 0 ==>
              GetAddress(r) == GetAddress(w) - (py - w.y) * w.maxPixelsPerLine
    ensures buttonsHeld && key == Shift && w.offs - (py - w.y) >= 0 ==>
              GetAddress(r) == GetAddress(w) - (py - w.y)
  {
    var r :=
      if !buttonsHeld then w.(mouseOffs := OffsByPos(w, px, py))
      else if key == Control then SetZoomDelta(w, if py > w.y then -1 else 1)
      else if key == Alt then SetWidthDelta(w, if py > w.y then -1 else 1)
      else if py != w.y then
        var delta := if key != Shift then (py - w.y) * w.maxPixelsPerLine else py - w.y;
        SetOffsetDelta(w, delta)
      else w;
    r.(y := py)
  }

  /** One point drawn by `_plot_buffer`: its screen centre and colour. */
  datatype Point = Point(x: int, y: int, color: Color)

  /** The screen centre of pixel `i` of a frame. */
  function Centre(w: Widget, i: nat): (p: (int, int))
    requires Valid(w)
  {
    ((i % w.maxPixelsPerLine) * w.pixelSize + w.pixelSize / 2,
     (i / w.maxPixelsPerLine) * w.pixelSize + w.pixelSize / 2)
  }

  /**
   * Pointing at the centre of a drawn pixel selects that very pixel: the
   * layout of `_plot_buffer` and `_get_offs_by_pos` are inverse to each other.
   */
  lemma {:induction false} CentreRoundTrip(w: Widget, i: nat)
    requires Valid(w) && i < w.maxPixelsTotal
    requires w.maxPixelsTotal % w.maxPixelsPerLine == 0
    ensures OffsByPos(w, Centre(w, i).0, Centre(w, i).1) == i
  {
    var ps, width := w.pixelSize, w.maxPixelsPerLine;
    var col, row := i % width, i / width;
    CellDiv(col, ps);
    CellDiv(row, ps);
    assert (col * ps + ps / 2) / ps == col;
    assert (row * ps + ps / 2) / ps == row;
    var rows := w.maxPixelsTotal / width;
    assert w.maxPixelsTotal == rows * width;
    RowOfBound(i, width, rows);
    assert row <= rows - 1;
    assert row * width + col == i;
  }

  lemma CellDiv(k: int, ps: int)
    requires ps >= 1 && k >= 0
    ensures (k * ps + ps / 2) / ps == k
  {
    DivModUnique(k * ps + ps / 2, ps, k, ps / 2);
  }

  lemma RowOfBound(i: nat, width: int, rows: int)
    requires width >= 1 && i < rows * width
    ensures i / width < rows
  {
    if i / width >= rows {
      MulMono(rows, i / width, width);
    }
  }

  /**
   * What `_plot_buffer` draws for pixel `i`: a point at the pixel's centre in
   * the filter's colour, inverted only under the pointer when cursor
   * highlighting is on.
   */
  function Drawn(w: Widget, colors: seq<Color>, i: nat): Point
    requires Valid(w) && i < |colors|
  {
    Point(Centre(w, i).0, Centre(w, i).1,
          if i == w.mouseOffs && w.showcursor then Invert(colors[i]) else colors[i])
  }

  /**
   * `_plot_buffer`: recompute the frame size from the widget height, fetch
   * the frame's bytes (`frame`), let the filter colour them, and draw pixel `i` at
   * column `i % width`, row `i / width`.  The row counter is kept as the
   * source keeps it (bumped whenever the column wraps to zero).  A filter
   * that returns too few colours makes `colors[i]` raise: drawing stops
   * there and `complete` is false.
   */
  method PlotBuffer(w: Widget, height: nat, segs: seq<ByteSource.Segment>, read: ByteSource.Reader,
                    filter: (seq<byte>, int) -> seq<Color>)
    returns (r: Widget, frame: seq<byte>, points: seq<Point>, complete: bool)
    requires Valid(w)
    ensures Valid(r)
    ensures r.maxPixelsTotal == w.maxPixelsPerLine * (height / w.pixelSize) >= 0
    ensures frame == ByteSource.GetBuf(segs, GetAddress(w), r.maxPixelsTotal, read)
    ensures r.numbytes == Min(r.maxPixelsTotal, |frame|)
    ensures r == w.(maxPixelsTotal := r.maxPixelsTotal, numbytes := r.numbytes)
    ensures var colors := filter(frame[..r.numbytes], GetAddress(w));
            && complete == (|colors| >= r.numbytes)
            && |points| == Min(r.numbytes, |colors|)
            && forall i | 0 <= i < |points| :: points[i] == Drawn(w, colors, i)
  {
    var ps, width := w.pixelSize, w.maxPixelsPerLine;
    var total := width * (height / ps);
    MulNonneg(width, height / ps);
    frame := ByteSource.GetBuf(segs, GetAddress(w), total, read);
    var numbytes := Min(total, |frame|);
    r := w.(maxPixelsTotal := total, numbytes := numbytes);
    var colors := filter(frame[..numbytes], GetAddress(w));

    var row := -1;
    var screenY := 0;
    points := [];
    var i := 0;
    while i < numbytes && i < |colors|
      invariant 0 <= i <= numbytes && i <= |colors|
      invariant |points| == i
      invariant i == 0 ==> row == -1
      invariant i > 0 ==> row == (i - 1) / width && screenY == row * ps
      invariant forall j | 0 <= j < i :: points[j] == Drawn(w, colors, j)
    {
      var x := i % width;
      var screenX := x * ps;
      RowCounter(i, width, row);
      if x == 0 {
        row := row + 1;
        screenY := row * ps;
      }
      assert row == i / width;
      var col := colors[i];
      if w.mouseOffs == i && w.showcursor {
        col := Invert(col);
      }
      assert Point(screenX + ps / 2, screenY + ps / 2, col) == Drawn(w, colors, i);
      points := points + [Point(screenX + ps / 2, screenY + ps / 2, col)];
      i := i + 1;
    }
    complete := |colors| >= numbytes;
  }

  /** The row counter of `_plot_buffer`, bumped when the column wraps, is the row of pixel `i`. */
  lemma RowCounter(i: nat, width: int, row: int)
    requires width >= 1
    requires i == 0 ==> row == -1
    requires i > 0 ==> row == (i - 1) / width
    ensures (if i % width == 0 then row + 1 else row) == i / width
  {
    NextRow(i, width);
  }

  /** The row of pixel `i` is the row of pixel `i - 1` unless the column wraps. */
  lemma NextRow(i: nat, width: int)
    requires width >= 1
    ensures i > 0 && i % width != 0 ==> i / width == (i - 1) / width
    ensures i > 0 && i % width == 0 ==> i / width == (i - 1) / width + 1
    ensures i == 0 ==> i / width == 0 && i % width == 0
  {
    if i == 0 {
      DivModUnique(0, width, 0, 0);
    } else {
      var q, m := (i - 1) / width, (i - 1) % width;
      if m + 1 < width {
        DivModUnique(i, width, q, m + 1);
      } else {
        assert i == (q + 1) * width;
        DivModUnique(i, width, q + 1, 0);
      }
    }
  }
}
