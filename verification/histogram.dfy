/**
 * The Histogram filter: the frame is a 256-column chart of how often each
 * byte value occurs among the mapped bytes, one column per value, the
 * tallest bar reaching the top row.
 */
module Histogram {
  import opened Bits
  import opened Common

  /** The chart's fixed width: one column per byte value. */
  const Width: nat := 256

  const Backdrop: int := 0x193d5a
  const CursorColor: int := 0xf2f0f0

  /** The filter's state: the last histogram, its largest count, and the side-panel lines. */
  datatype State = State(hist: seq<nat>, maxCount: nat, annotations: Option<seq<Annotation>>)

  function Initial(): State
  {
    State([], 0, None)
  }

  function Sum(s: seq<nat>): nat
  {
    if s == [] then 0 else s[0] + Sum(s[1..])
  }

  lemma {:induction false} SumBump(h: seq<nat>, v: nat)
    requires v < |h|
    ensures Sum(h[v := h[v] + 1]) == Sum(h) + 1
  {
    if v > 0 {
      assert h[v := h[v] + 1][1..] == h[1..][v - 1 := h[1..][v - 1] + 1];
      SumBump(h[1..], v - 1);
    }
  }

  lemma {:induction false} SumZeros(n: nat)
    ensures Sum(Repeat<nat>(0, n)) == 0
  {
    if n > 0 {
      assert Repeat<nat>(0, n)[0] == 0;
      assert Repeat<nat>(0, n)[1..] == Repeat<nat>(0, n - 1);
      SumZeros(n - 1);
    }
  }

  /**
   * `int(round(count / float(max_count) * height))`: the bar height, the
   * share of the largest count scaled to the chart height and rounded to
   * the nearest integer, halves up.
   */
  function Bar(count: nat, maxCount: nat, height: nat): (b: nat)
    requires maxCount > 0
    ensures 2 * count * height - maxCount < 2 * maxCount * b <= 2 * count * height + maxCount
  {
    var a, d := 2 * count * height + maxCount, 2 * maxCount;
    assert d * (a / d) <= a < d * (a / d) + d;
    a / d
  }

  /** No bar is taller than the chart; the largest count fills it and a zero count draws nothing. */
  lemma BarBounds(count: nat, maxCount: nat, height: nat)
    requires 0 < maxCount && count <= maxCount
    ensures Bar(count, maxCount, height) <= height
    ensures Bar(maxCount, maxCount, height) == height
    ensures Bar(0, maxCount, height) == 0
  {
    BarAtMost(count, maxCount, height);
    DivModUnique(2 * maxCount * height + maxCount, 2 * maxCount, height, maxCount);
    DivModUnique(maxCount, 2 * maxCount, 0, maxCount);
  }

  lemma BarAtMost(count: nat, maxCount: nat, height: nat)
    requires 0 < maxCount && count <= maxCount
    ensures Bar(count, maxCount, height) <= height
  {
    var b := Bar(count, maxCount, height);
    MulMono(2 * height, count, maxCount);
    assert 2 * maxCount * b < 2 * maxCount * (height + 1);
    if b > height {
      MulMono(2 * maxCount, height + 1, b);
    }
  }

  lemma MulMono(k: nat, a: nat, b: nat)
    requires a <= b
    ensures k * a <= k * b
  {
  }

  /** The colour of a bar cell: the cursor's column stands out, other columns alternate by parity. */
  function BarColor(column: int, cursorX: int): int
  {
    if column == cursorX then CursorColor else [0xffad00, 0xc10000][column % 2]
  }

  /**
   * Reference definition of the chart: entry `p` lies in column `p % 256`
   * and in row `p / 256` counted from the top; it is a bar cell when the
   * row is among the chart's `height` rows and within the column's bar,
   * measured from the bottom row up.
   */
  predicate Painted(hist: seq<nat>, maxCount: nat, height: nat, p: nat)
    requires |hist| == 256
  {
    maxCount > 0 && height > 0 && p < height * Width
    && height - 1 - p / Width < Bar(hist[p % Width], maxCount, height)
  }

  /** Where the paint loop has reached: columns before `i` in full, and `y` cells of column `i`. */
  predicate PaintedSoFar(hist: seq<nat>, maxCount: nat, height: nat, p: nat, i: nat, y: nat)
    requires |hist| == 256 && maxCount > 0
  {
    p < height * Width &&
    var col, row := p % Width, height - 1 - p / Width;
    (col < i && row < Bar(hist[col], maxCount, height)) || (col == i && row < y)
  }

  /** Cell `y` of column `i` is at `(height - 1 - y) * 256 + i`, inside the chart. */
  lemma BarIndex(height: nat, y: nat, i: nat)
    requires y < height && i < Width
    ensures var idx := (height - 1 - y) * Width + i;
            0 <= idx < height * Width && idx % Width == i && idx / Width == height - 1 - y
  {
    var idx := (height - 1 - y) * Width + i;
    DivModUnique(idx, Width, height - 1 - y, i);
  }

  /** The counting loop: `hist[v]` is the number of bytes equal to `v`, and the counts add up to the byte count. */
  method CountBytes(data: seq<byte>) returns (hist: seq<nat>)
    ensures |hist| == 256
    ensures forall v | 0 <= v < 256 :: hist[v] == multiset(data)[v]
    ensures Sum(hist) == |data|
  {
    hist := Repeat<nat>(0, 256);
    SumZeros(256);
    var i := 0;
    while i < |data|
      invariant 0 <= i <= |data| && |hist| == 256
      invariant forall v | 0 <= v < 256 :: hist[v] == multiset(data[..i])[v]
      invariant Sum(hist) == i
    {
      SumBump(hist, data[i]);
      CountStep(data, i, hist, hist[data[i] := hist[data[i]] + 1]);
      hist := hist[data[i] := hist[data[i]] + 1];
      i := i + 1;
    }
    assert data[..|data|] == data;
  }

  /** Counting byte `i` bumps its own value's count and no other. */
  lemma CountStep(data: seq<byte>, i: nat, hist: seq<nat>, hist': seq<nat>)
    requires i < |data| && |hist| == 256 && hist' == hist[data[i] := hist[data[i]] + 1]
    requires forall v | 0 <= v < 256 :: hist[v] == multiset(data[..i])[v]
    ensures forall v | 0 <= v < 256 :: hist'[v] == multiset(data[..i + 1])[v]
  {
    assert data[..i + 1] == data[..i] + [data[i]];
  }

  /** `max(hist)`. */
  method MaxOf(hist: seq<nat>) returns (m: nat)
    requires |hist| > 0
    ensures forall v | 0 <= v < |hist| :: hist[v] <= m
    ensures exists v | 0 <= v < |hist| :: hist[v] == m
  {
    m := hist[0];
    var i := 1;
    while i < |hist|
      invariant 1 <= i <= |hist|
      invariant forall v | 0 <= v < i :: hist[v] <= m
      invariant exists v | 0 <= v < i :: hist[v] == m
    {
      if hist[i] > m {
        m := hist[i];
      }
      i := i + 1;
    }
  }

  /** The entries of the chart after the loops have drawn `y` cells of column `i`. */
  predicate DrawnSoFar(colors: seq<Pixel>, hist: seq<nat>, maxCount: nat, height: nat, cursorX: int, i: nat, y: nat)
    requires |hist| == 256 && maxCount > 0
  {
    forall p | 0 <= p < |colors| ::
      colors[p] == Pixel(true, Some(Hex(if PaintedSoFar(hist, maxCount, height, p, i, y)
                                        then BarColor(p % Width, cursorX) else Backdrop)))
  }

  /** The inner loop: the cells of column `i`'s bar, from the bottom row up. */
  method DrawColumn(colors: seq<Pixel>, hist: seq<nat>, maxCount: nat, height: nat, cursorX: int, i: nat)
    returns (r: seq<Pixel>)
    requires |hist| == 256 && 0 < maxCount && i < 256 && hist[i] <= maxCount
    requires height * Width <= |colors|
    requires DrawnSoFar(colors, hist, maxCount, height, cursorX, i, 0)
    ensures |r| == |colors|
    ensures DrawnSoFar(r, hist, maxCount, height, cursorX, i + 1, 0)
  {
    r := colors;
    var bar := Bar(hist[i], maxCount, height);
    BarBounds(hist[i], maxCount, height);
    var y := 0;
    while y < bar
      invariant 0 <= y <= bar && |r| == |colors|
      invariant DrawnSoFar(r, hist, maxCount, height, cursorX, i, y)
    {
      var idx := height * Width - Width + i - y * Width;
      assert idx == (height - 1 - y) * Width + i;
      BarIndex(height, y, i);
      forall p | 0 <= p < |r| && p != idx
        ensures PaintedSoFar(hist, maxCount, height, p, i, y + 1) == PaintedSoFar(hist, maxCount, height, p, i, y)
      {
      }
      r := r[idx := Pixel(true, Some(Hex(BarColor(i, cursorX))))];
      y := y + 1;
    }
    forall p | 0 <= p < |r|
      ensures PaintedSoFar(hist, maxCount, height, p, i + 1, 0) == PaintedSoFar(hist, maxCount, height, p, i, bar)
    {
    }
  }

  /**
   * The drawing loops: every entry starts as backdrop and the bars
   * overwrite the cells of the chart rows; nothing is drawn with an empty
   * histogram or no row.
   */
  method DrawBars(hist: seq<nat>, maxCount: nat, size: nat, cursorX: int) returns (colors: seq<Pixel>)
    requires |hist| == 256 && forall v | 0 <= v < 256 :: hist[v] <= maxCount
    ensures |colors| == size
    ensures forall p | 0 <= p < size ::
              colors[p] == Pixel(true, Some(Hex(if Painted(hist, maxCount, size / Width, p)
                                                then BarColor(p % Width, cursorX) else Backdrop)))
  {
    var height := size / Width;
    colors := Repeat(Pixel(true, Some(Hex(Backdrop))), size);
    if maxCount > 0 && height > 0 {
      assert height * Width <= size;
      var i := 0;
      while i < 256
        invariant 0 <= i <= 256 && |colors| == size
        invariant DrawnSoFar(colors, hist, maxCount, height, cursorX, i, 0)
      {
        colors := DrawColumn(colors, hist, maxCount, height, cursorX, i);
        i := i + 1;
      }
      forall p | 0 <= p < size
        ensures PaintedSoFar(hist, maxCount, height, p, 256, 0) == Painted(hist, maxCount, height, p)
      {
      }
    }
  }

  /**
   * `on_process_buffer`.  `size` is the frame's pixel count; the chart has
   * `size / 256` rows.  The histogram counts the mapped bytes, then the
   * bars are drawn, the cursor's column `mouse % 256` highlighted.  The
   * side panel gets six lines (the entropy line's value is not modelled).
   * Without a cursor `mouse_offs % width` raises `TypeError` (no colours
   * here) after the histogram and its maximum were stored and before the
   * side panel is replaced.
   */
  method OnProcessBuffer(s: State, runs: seq<Run>, addr: int, size: nat, mouse: Option<int>)
    returns (r: State, colors: Option<seq<Pixel>>)
    ensures colors.None? <==> mouse.None?
    ensures |r.hist| == 256
    ensures forall v | 0 <= v < 256 :: r.hist[v] == multiset(MappedBytes(runs))[v]
    ensures Sum(r.hist) == |MappedBytes(runs)|
    ensures forall v | 0 <= v < 256 :: r.hist[v] <= r.maxCount
    ensures exists v | 0 <= v < 256 :: r.hist[v] == r.maxCount
    ensures mouse.None? ==> r.annotations == s.annotations
    ensures colors.Some? ==> |colors.value| == size
    ensures colors.Some? ==> forall p | 0 <= p < size ::
              colors.value[p] == Pixel(true, Some(Hex(if Painted(r.hist, r.maxCount, size / Width, p)
                                                      then BarColor(p % Width, PyMod(mouse.value, Width))
                                                      else Backdrop)))
    ensures mouse.Some? ==> r.annotations.Some? && |r.annotations.value| == 6
    ensures mouse.Some? ==> r.annotations.value[1].text.args == [Num(addr + |MappedBytes(runs)|)]
    ensures mouse.Some? ==>
              r.annotations.value[5].text.args == [Num(PyMod(mouse.value, Width)), Num(r.hist[PyMod(mouse.value, Width)]), Num(r.maxCount)]
  {
    var data := MappedBytes(runs);
    var hist := CountBytes(data);
    var maxCount := MaxOf(hist);
    if mouse.None? {
      return State(hist, maxCount, s.annotations), None;
    }
    var cursorX := PyMod(mouse.value, Width);
    var drawn := DrawBars(hist, maxCount, size, cursorX);
    r, colors := State(hist, maxCount, Some(SidePanel(addr, |data|, hist, maxCount, cursorX))), Some(drawn);
  }

  /** The six side-panel lines: start, end and size of the mapped bytes, a gap, the entropy, and the cursor's column. */
  function SidePanel(addr: int, n: nat, hist: seq<nat>, maxCount: nat, cursorX: nat): (ann: seq<Annotation>)
    requires cursorX < |hist|
    ensures |ann| == 6
    ensures ann[1].text.args == [Num(addr + n)]
    ensures ann[5].text.args == [Num(cursorX), Num(hist[cursorX]), Num(maxCount)]
  {
    var light := Some(Hex(CursorColor));
    [Line("Start: 0x%X", [Num(addr)], light),
     Line("End: 0x%X", [Num(addr + n)], light),
     Line("Size: 0x%X", [Num(n)], light),
     Line("", [], None),
     Line("Entropy: %f", [], light),
     Line("Byte: 0x%02X (%d/%d)", [Num(cursorX), Num(hist[cursorX]), Num(maxCount)], light)]
  }

  /** The most common byte value's bar reaches from the bottom row to the top one. */
  lemma TallestBarFullHeight(hist: seq<nat>, maxCount: nat, height: nat, v: nat, row: nat)
    requires |hist| == 256 && v < 256 && hist[v] == maxCount > 0 && row < height
    ensures Painted(hist, maxCount, height, row * Width + v)
  {
    BarBounds(maxCount, maxCount, height);
    BarIndex(height, height - 1 - row, v);
  }

  /** A byte value that does not occur has no bar at all. */
  lemma AbsentValueNoBar(hist: seq<nat>, maxCount: nat, height: nat, v: nat, row: nat)
    requires |hist| == 256 && v < 256 && hist[v] == 0 && maxCount > 0 && row < height
    ensures !Painted(hist, maxCount, height, row * Width + v)
  {
    BarBounds(0, maxCount, height);
    BarIndex(height, height - 1 - row, v);
  }

  /**
   * `on_get_tooltip`: the count of the byte value of the cursor's column.
   * Without a cursor the modulo raises `TypeError`, and before the first
   * frame the histogram is empty and the lookup raises; both are `None`.
   */
  function OnGetTooltip(s: State, mouse: Option<int>): (t: Option<Text>)
    ensures t.Some? <==> mouse.Some? && PyMod(mouse.value, Width) < |s.hist|
    ensures t.Some? ==> t.value.args == [Num(PyMod(mouse.value, Width)), Num(s.hist[PyMod(mouse.value, Width)])]
    ensures t.Some? ==> 0 <= t.value.args[0].n < 256
  {
    if mouse.None? then None
    else
      var i := PyMod(mouse.value, Width);
      if i < |s.hist| then Some(Text("%02X: %d occurences", [Num(i), Num(s.hist[i])])) else None
  }
}
