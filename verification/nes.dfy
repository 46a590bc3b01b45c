/**
 * The NES filter: every mapped byte is read as an 8-bit RRRGGGBB colour.
 */
module Nes {
  import opened Bits
  import opened Common

  /**
   * The colour of one mapped byte: the three red bits stay in place, the
   * three green bits move to the top of the green channel and the two blue
   * bits to the top of the blue channel.
   */
  function ByteColor(c: byte): (col: Color)
    ensures ValidColor(col)
    ensures col.r == (c / 32) * 32
    ensures col.g == ((c / 4) % 8) * 32
    ensures col.b == (c % 4) * 64
  {
    MaskFields(c);
    QRgb(BitAnd(c, 0xE0), BitAnd(c * 8, 0xE0), BitAnd(c * 64, 0xC0))
  }

  /** The three masks of `render_img` cut out the RRR, GGG and BB fields. */
  lemma MaskFields(c: byte)
    ensures BitAnd(c, 0xE0) == (c / 32) * 32
    ensures BitAnd(c * 8, 0xE0) == ((c / 4) % 8) * 32
    ensures BitAnd(c * 64, 0xC0) == (c % 4) * 64
  {
    assert Pow2(5) == 32 && Pow2(6) == 64 && Pow2(8) == 256;
    AndRangeMask(c, 8, 5);
    DivModUnique(c, 256, 0, c);
    DivModUnique(c, 32, c / 32, c % 32);

    var q := c / 4;
    AndRangeMask(c * 8, 8, 5);
    DivModUnique(c * 8, 256, c / 32, 8 * (c % 32));
    DivModUnique(c * 8, 32, q, 8 * (c % 4));
    DivModUnique(c, 32, q / 8, 4 * (q % 8) + c % 4);

    AndRangeMask(c * 64, 8, 6);
    DivModUnique(c * 64, 256, q, 64 * (c % 4));
    DivModUnique(c * 64, 64, c, 0);
  }

  /** Reading the three fields back out of a colour. */
  function Decode(col: Color): int
  {
    col.r + col.g / 8 + col.b / 64
  }

  /**
   * The fields are disjoint: decoding the colour of a byte gives the byte
   * back, so distinct bytes get distinct colours, and the bits below each
   * field are clear.
   */
  lemma DecodeByteColor(c: byte, d: byte)
    ensures Decode(ByteColor(c)) == c
    ensures ByteColor(c) == ByteColor(d) ==> c == d
    ensures ByteColor(c).r % 32 == 0 && ByteColor(c).g % 32 == 0 && ByteColor(c).b % 64 == 0
  {
    DecodeOne(c);
    DecodeOne(d);
    var col := ByteColor(c);
    DivModUnique(col.r, 32, c / 32, 0);
    DivModUnique(col.g, 32, (c / 4) % 8, 0);
    DivModUnique(col.b, 64, c % 4, 0);
  }

  lemma DecodeOne(c: byte)
    ensures Decode(ByteColor(c)) == c
  {
    var col, q := ByteColor(c), c / 4;
    DivModUnique(col.g, 8, (q % 8) * 4, 0);
    DivModUnique(col.b, 64, c % 4, 0);
    DivModUnique(c, 32, q / 8, 4 * (q % 8) + c % 4);
  }

  /** One output entry: mapped bytes get their colour, unmapped ones `(False, 0)`. */
  function NesPixel(cell: Cell): Pixel
  {
    if cell.mapped then Pixel(true, Some(ByteColor(cell.value)))
    else Pixel(false, Some(Hex(0)))
  }

  /**
   * `render_img`: one entry per byte of all buffers, in order; mapped bytes
   * coloured by their RRRGGGBB fields, unmapped bytes `(False, 0)`.
   */
  function RenderImg(runs: seq<Run>): (r: seq<Pixel>)
    ensures |r| == TotalLen(runs)
    ensures forall k | 0 <= k < |r| ::
              && r[k].mapped == CellAt(runs, k).mapped
              && (CellAt(runs, k).mapped ==> r[k].color == Some(ByteColor(CellAt(runs, k).value)))
              && (!CellAt(runs, k).mapped ==> r[k].color == Some(Rgb(0, 0, 0)))
  {
    Paint(runs, NesPixel)
  }
}
