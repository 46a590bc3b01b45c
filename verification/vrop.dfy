/**
 * The VisualROP filter: return instructions stand out in the inverted
 * palette colour, the first ten of a frame also lightened; other bytes
 * take a dark green palette.  The side panel lists the returns' addresses.
 * Whether an address decodes to a return instruction is an input, and so
 * is Qt's `lighter(140)`.
 */
module Vrop {
  import opened Common

  /** The "Dark Hope" palette, darkest first. */
  const Colormap: seq<int> := [0x00321c, 0x004c2b, 0x006539, 0x007f47, 0x009856]

  const PtrColor: int := 0xb2b2b2

  /** The number of returns lightened, and listed, minus one. */
  const Threshold: nat := 9

  function PaletteColor(c: byte): Color
  {
    Hex(Colormap[PaletteIndex(c)])
  }

  /** The colour of the `nret`-th return of the frame (counting from 0) at a byte of value `c`. */
  function RetColor(c: byte, nret: nat, lighter: Color -> Color): Color
  {
    var inv := Invert(PaletteColor(c));
    if nret <= Threshold then lighter(inv) else inv
  }

  /** What the filter promises for frame entry `k`, given the return addresses `locs`. */
  predicate CellOk(px: Pixel, cell: Cell, addr: int, k: int, locs: seq<int>,
                   isRet: int -> bool, lighter: Color -> Color)
  {
    && (!cell.mapped ==> px == Pixel(false, None))
    && (cell.mapped && !isRet(addr + k) ==> px == Pixel(true, Some(PaletteColor(cell.value))))
    && (cell.mapped && isRet(addr + k) ==>
          forall j | 0 <= j < |locs| && locs[j] == addr + k :: px == Pixel(true, Some(RetColor(cell.value, j, lighter))))
  }

  /** The frame's cells, in order. */
  function Cells(runs: seq<Run>): (cs: seq<Cell>)
    ensures |cs| == TotalLen(runs)
    ensures forall k | 0 <= k < |cs| :: cs[k] == CellAt(runs, k)
  {
    seq(TotalLen(runs), k requires 0 <= k < TotalLen(runs) => CellAt(runs, k))
  }

  /** Address `ea` of the frame starting at `addr` holds a mapped return instruction. */
  predicate RetAt(cells: seq<Cell>, addr: int, isRet: int -> bool, ea: int)
  {
    addr <= ea < addr + |cells| && cells[ea - addr].mapped && isRet(ea)
  }

  /**
   * `ret_locs` after the first `n` entries of the frame: ascending, and
   * exactly the addresses of those entries that are mapped return
   * instructions.
   */
  predicate LocsOk(cells: seq<Cell>, addr: int, isRet: int -> bool, locs: seq<int>, n: nat)
  {
    && (forall j, j' | 0 <= j < j' < |locs| :: locs[j] < locs[j'])
    && (forall j | 0 <= j < |locs| :: addr <= locs[j] < addr + n && RetAt(cells, addr, isRet, locs[j]))
    && (forall ea | addr <= ea < addr + n && RetAt(cells, addr, isRet, ea) :: ea in locs)
  }

  /** One mapped byte: a return's address is appended, and the list stays ascending and complete. */
  lemma LocsStep(cells: seq<Cell>, addr: int, isRet: int -> bool, locs: seq<int>, n: nat)
    requires n < |cells| && cells[n].mapped
    requires LocsOk(cells, addr, isRet, locs, n)
    ensures LocsOk(cells, addr, isRet, if isRet(addr + n) then locs + [addr + n] else locs, n + 1)
  {
    var locs' := if isRet(addr + n) then locs + [addr + n] else locs;
    assert forall j | 0 <= j < |locs| :: locs'[j] == locs[j];
    forall j, j' | 0 <= j < j' < |locs'|
      ensures locs'[j] < locs'[j']
    {
      if j' >= |locs| {
        assert locs'[j'] == addr + n && locs[j] < addr + n;
      }
    }
    forall j | 0 <= j < |locs'|
      ensures addr <= locs'[j] < addr + n + 1 && RetAt(cells, addr, isRet, locs'[j])
    {
      if j >= |locs| {
        assert locs'[j] == addr + n;
      }
    }
    forall ea | addr <= ea < addr + n + 1 && RetAt(cells, addr, isRet, ea)
      ensures ea in locs'
    {
      if ea == addr + n {
        assert locs'[|locs|] == addr + n;
      } else {
        assert ea in locs;
      }
    }
  }

  /** Appending a later return keeps every earlier entry's promise. */
  lemma CellsAppendRet(cells: seq<Cell>, addr: int, isRet: int -> bool, lighter: Color -> Color,
                       colors: seq<Pixel>, locs: seq<int>, n: nat, ea: int)
    requires n == |colors| <= |cells|
    requires forall j | 0 <= j < |locs| :: locs[j] < ea
    requires ea >= addr + n
    requires forall k | 0 <= k < n :: CellOk(colors[k], cells[k], addr, k, locs, isRet, lighter)
    ensures forall k | 0 <= k < n :: CellOk(colors[k], cells[k], addr, k, locs + [ea], isRet, lighter)
  {
    var locs' := locs + [ea];
    forall k | 0 <= k < n
      ensures CellOk(colors[k], cells[k], addr, k, locs', isRet, lighter)
    {
      assert CellOk(colors[k], cells[k], addr, k, locs, isRet, lighter);
      forall j | 0 <= j < |locs'| && locs'[j] == addr + k
        ensures j < |locs| && locs'[j] == locs[j]
      {
      }
    }
  }

  /** Appending the entry for a byte at frame offset `n`, given its promise, extends the drawn prefix. */
  lemma CellsAppend(cells: seq<Cell>, addr: int, isRet: int -> bool, lighter: Color -> Color,
                    colors: seq<Pixel>, locs: seq<int>, n: nat, px: Pixel)
    requires n == |colors| < |cells|
    requires forall k | 0 <= k < n :: CellOk(colors[k], cells[k], addr, k, locs, isRet, lighter)
    requires CellOk(px, cells[n], addr, n, locs, isRet, lighter)
    ensures forall k | 0 <= k < n + 1 :: CellOk((colors + [px])[k], cells[k], addr, k, locs, isRet, lighter)
  {
    forall k | 0 <= k < n + 1
      ensures CellOk((colors + [px])[k], cells[k], addr, k, locs, isRet, lighter)
    {
      if k < n {
        assert (colors + [px])[k] == colors[k];
      } else {
        assert (colors + [px])[k] == px;
      }
    }
  }

  /** The first `n` entries of the frame are drawn, in `colors`, with `locs` their returns. */
  predicate Drawn(cells: seq<Cell>, addr: int, isRet: int -> bool, lighter: Color -> Color,
                  colors: seq<Pixel>, locs: seq<int>, n: nat)
  {
    && n == |colors| && n <= |cells|
    && LocsOk(cells, addr, isRet, locs, n)
    && forall k | 0 <= k < n :: CellOk(colors[k], cells[k], addr, k, locs, isRet, lighter)
  }

  /** Drawing one more mapped return instruction keeps the frame drawn. */
  lemma DrawnRet(cells: seq<Cell>, addr: int, isRet: int -> bool, lighter: Color -> Color,
                 colors: seq<Pixel>, locs: seq<int>, n: nat)
    requires n < |cells| && cells[n].mapped && isRet(addr + n)
    requires Drawn(cells, addr, isRet, lighter, colors, locs, n)
    ensures Drawn(cells, addr, isRet, lighter,
                  colors + [Pixel(true, Some(RetColor(cells[n].value, |locs|, lighter)))], locs + [addr + n], n + 1)
  {
    var ea := addr + n;
    var locs' := locs + [ea];
    LocsStep(cells, addr, isRet, locs, n);
    CellsAppendRet(cells, addr, isRet, lighter, colors, locs, n, ea);
    assert forall j | 0 <= j < |locs'| && locs'[j] == ea :: j == |locs| by {
      forall j | 0 <= j < |locs| ensures locs'[j] < ea { assert locs'[j] == locs[j]; }
    }
    CellsAppend(cells, addr, isRet, lighter, colors, locs', n, Pixel(true, Some(RetColor(cells[n].value, |locs|, lighter))));
  }

  /** Drawing one more mapped byte that is no return keeps the frame drawn. */
  lemma DrawnPlain(cells: seq<Cell>, addr: int, isRet: int -> bool, lighter: Color -> Color,
                   colors: seq<Pixel>, locs: seq<int>, n: nat)
    requires n < |cells| && cells[n].mapped && !isRet(addr + n)
    requires Drawn(cells, addr, isRet, lighter, colors, locs, n)
    ensures Drawn(cells, addr, isRet, lighter, colors + [Pixel(true, Some(PaletteColor(cells[n].value)))], locs, n + 1)
  {
    LocsStep(cells, addr, isRet, locs, n);
    CellsAppend(cells, addr, isRet, lighter, colors, locs, n, Pixel(true, Some(PaletteColor(cells[n].value))));
  }

  /** Drawing `m` unmapped entries keeps the frame drawn. */
  lemma DrawnUnmapped(cells: seq<Cell>, addr: int, isRet: int -> bool, lighter: Color -> Color,
                      colors: seq<Pixel>, locs: seq<int>, n: nat, m: nat)
    requires n + m <= |cells| && forall k | n <= k < n + m :: !cells[k].mapped
    requires Drawn(cells, addr, isRet, lighter, colors, locs, n)
    ensures Drawn(cells, addr, isRet, lighter, colors + Repeat(Pixel(false, None), m), locs, n + m)
  {
    var colors' := colors + Repeat(Pixel(false, None), m);
    assert forall k | 0 <= k < n :: colors'[k] == colors[k];
  }

  /** The byte loop over mapped buffer `r`. */
  method DrawMapped(runs: seq<Run>, r: nat, addr: int, isRet: int -> bool, lighter: Color -> Color,
                    colors0: seq<Pixel>, locs0: seq<int>, n0: nat)
    returns (colors: seq<Pixel>, locs: seq<int>, n: nat)
    requires r < |runs| && runs[r].mapped && n0 == TotalLen(runs[..r])
    requires Drawn(Cells(runs), addr, isRet, lighter, colors0, locs0, n0)
    ensures n == TotalLen(runs[..r + 1])
    ensures Drawn(Cells(runs), addr, isRet, lighter, colors, locs, n)
  {
    TotalLenPrefix(runs, r);
    var cells := Cells(runs);
    colors, locs, n := colors0, locs0, n0;
    var buf := runs[r].data;
    var i := 0;
    while i < |buf|
      invariant 0 <= i <= |buf| && n == n0 + i
      invariant Drawn(cells, addr, isRet, lighter, colors, locs, n)
    {
      var ea, c := addr + n, buf[i];
      CellAtRun(runs, r, i);
      if isRet(ea) {
        DrawnRet(cells, addr, isRet, lighter, colors, locs, n);
        colors := colors + [Pixel(true, Some(RetColor(c, |locs|, lighter)))];
        locs := locs + [ea];
      } else {
        DrawnPlain(cells, addr, isRet, lighter, colors, locs, n);
        colors := colors + [Pixel(true, Some(PaletteColor(c)))];
      }
      n, i := n + 1, i + 1;
    }
  }

  /**
   * `on_process_buffer`: one entry per byte of all buffers, in order, and
   * `ret_locs`, rebuilt every frame: the addresses of the mapped return
   * instructions in ascending order.  A return's colour depends on its
   * position in `ret_locs`: the first ten are lightened.
   */
  method OnProcessBuffer(runs: seq<Run>, addr: int, isRet: int -> bool, lighter: Color -> Color)
    returns (locs: seq<int>, colors: seq<Pixel>)
    ensures |colors| == TotalLen(runs)
    ensures LocsOk(Cells(runs), addr, isRet, locs, TotalLen(runs))
    ensures forall k | 0 <= k < |colors| :: CellOk(colors[k], CellAt(runs, k), addr, k, locs, isRet, lighter)
  {
    var cells := Cells(runs);
    colors, locs := [], [];
    var n, r := 0, 0;
    while r < |runs|
      invariant 0 <= r <= |runs| && n == TotalLen(runs[..r])
      invariant Drawn(cells, addr, isRet, lighter, colors, locs, n)
    {
      TotalLenPrefix(runs, r);
      if runs[r].mapped {
        colors, locs, n := DrawMapped(runs, r, addr, isRet, lighter, colors, locs, n);
      } else {
        var m := |runs[r].data|;
        forall k | n <= k < n + m
          ensures !cells[k].mapped
        {
          CellAtRun(runs, r, k - n);
        }
        DrawnUnmapped(cells, addr, isRet, lighter, colors, locs, n, m);
        colors, n := colors + Repeat(Pixel(false, None), m), n + m;
      }
      r := r + 1;
    }
    assert runs[..|runs|] == runs;
    assert forall k | 0 <= k < |colors| :: cells[k] == CellAt(runs, k);
  }

  /**
   * From the eleventh return of a frame on, a return is drawn in the plain
   * complement of its palette colour: complementing gives the palette
   * colour back, and it matches no palette colour at all (its red channel
   * is full where the palette's is empty), so it always stands out.
   */
  lemma LateReturnStandsOut(c: byte, d: byte, nret: nat, lighter: Color -> Color)
    requires nret > Threshold
    ensures Invert(RetColor(c, nret, lighter)) == PaletteColor(c)
    ensures RetColor(c, nret, lighter).r == 255
    ensures RetColor(c, nret, lighter) != PaletteColor(d)
  {
    InvertInvolution(PaletteColor(c));
    assert PaletteColor(c).r == 0 by { PaletteRedEmpty(c); }
    assert PaletteColor(d).r == 0 by { PaletteRedEmpty(d); }
  }

  lemma PaletteRedEmpty(c: byte)
    ensures PaletteColor(c).r == 0
  {
    var i := PaletteIndex(c);
    assert i == 0 || i == 1 || i == 2 || i == 3 || i == 4;
  }

  /**
   * `on_get_annotations`: the caption, then one line per recorded return,
   * pointing at it; after the tenth line the listing stops with a line
   * saying how many returns are left (also when that is none).
   */
  function OnGetAnnotations(locs: seq<int>): (ann: seq<Annotation>)
    ensures var shown := if |locs| <= Threshold then |locs| else Threshold + 1;
            && |ann| == 1 + shown + (if |locs| > Threshold then 1 else 0)
            && ann[0] == Line("Return instructions:", [], Some(Hex(Colormap[4])))
            && (forall i | 1 <= i <= shown :: ann[i].target == Some(locs[i - 1]) && ann[i].arrow == Some(Hex(PtrColor)))
            && (|locs| > Threshold ==>
                  ann[|ann| - 1].target == None && ann[|ann| - 1].text.args == [Num(|locs| - (Threshold + 1))])
  {
    [Line("Return instructions:", [], Some(Hex(Colormap[4])))] + ListFrom(locs, 0)
  }

  /** The listing loop from return `i` on, `i` lines listed so far. */
  function ListFrom(locs: seq<int>, i: nat): (r: seq<Annotation>)
    requires i <= |locs| && i <= Threshold
    ensures var shown := if |locs| - i <= Threshold - i then |locs| - i else Threshold + 1 - i;
            && |r| == shown + (if |locs| > Threshold then 1 else 0)
            && (forall q | 0 <= q < shown :: r[q].target == Some(locs[i + q]) && r[q].arrow == Some(Hex(PtrColor)))
            && (|locs| > Threshold ==> r[|r| - 1].target == None && r[|r| - 1].text.args == [Num(|locs| - (Threshold + 1))])
    decreases |locs| - i
  {
    if i == |locs| then []
    else
      var e := Annotation(Some(locs[i]), Some(Hex(PtrColor)), Text("  %X", [Num(locs[i])]), Some(Hex(Colormap[2])));
      if i + 1 > Threshold then
        [e, Line("  ... (%d more not shown)", [Num(|locs| - (i + 1))], Some(Hex(Colormap[1])))]
      else [e] + ListFrom(locs, i + 1)
  }
}
