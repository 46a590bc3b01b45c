/**
 * Types shared by the viewer core and the colour filters: bytes, colours,
 * the per-byte filter output, byte runs, and annotations.
 */
module Common {
  import opened Bits

  /** One byte of the inspected address space, as Python's `ord(c)` sees it. */
  type byte = x: int | 0 <= x < 256

  datatype Option<+T> = None | Some(value: T)

  /** IDA's BADADDR in a 64-bit database. */
  const BADADDR: int := 0xFFFF_FFFF_FFFF_FFFF

  // ---------------------------------------------------------------------
  // Python integer division

  /** Python's `a % m`: the remainder takes the sign of the divisor. */
  function PyMod(a: int, m: int): (r: int)
    requires m != 0
    ensures m > 0 ==> 0 <= r < m
    ensures m < 0 ==> m < r <= 0
  {
    if m > 0 then a % m else -((-a) % (-m))
  }

  /** `int(a / m)` on Python 3: true division truncated towards zero. */
  function TruncDiv(a: int, m: int): (q: int)
    requires m != 0
    ensures a >= 0 && m > 0 ==> q == a / m
  {
    var n, d := if a >= 0 then a else -a, if m > 0 then m else -m;
    if (a >= 0) == (m > 0) then n / d else -(n / d)
  }

  // ---------------------------------------------------------------------
  // Colours

  /** An RGB colour; the alpha byte Qt keeps beside it is not modelled. */
  datatype Color = Rgb(r: int, g: int, b: int)

  predicate ValidColor(c: Color)
  {
    0 <= c.r < 256 && 0 <= c.g < 256 && 0 <= c.b < 256
  }

  /** Qt's `qRgb(r, g, b)`: every channel is cut to its low eight bits. */
  function QRgb(r: int, g: int, b: int): (c: Color)
    ensures ValidColor(c)
    ensures 0 <= r < 256 && 0 <= g < 256 && 0 <= b < 256 ==> c == Rgb(r, g, b)
  {
    Rgb(Low8(r), Low8(g), Low8(b))
  }

  /** A 24-bit colour literal such as 0x343d46, split into its channels. */
  function Hex(v: int): (c: Color)
    ensures ValidColor(c)
  {
    Rgb((v / 0x10000) % 0x100, (v / 0x100) % 0x100, v % 0x100)
  }

  /** The 24-bit value of a colour, the inverse of `Hex`. */
  function Pack(c: Color): int
  {
    c.r * 0x10000 + c.g * 0x100 + c.b
  }

  lemma HexOfPack(c: Color)
    requires ValidColor(c)
    ensures Hex(Pack(c)) == c
  {
    var v := Pack(c);
    assert v / 0x100 == c.r * 0x100 + c.g;
    assert v / 0x10000 == c.r;
  }

  lemma PackOfHex(v: int)
    requires 0 <= v < 0x1000000
    ensures Pack(Hex(v)) == v
  {
  }

  /** `col.setRgb(~col.rgb())`: every channel is complemented. */
  function Invert(c: Color): (r: Color)
    ensures ValidColor(c) ==> ValidColor(r)
    ensures r.r + c.r == 255 && r.g + c.g == 255 && r.b + c.b == 255
  {
    Rgb(255 - c.r, 255 - c.g, 255 - c.b)
  }

  /** Complementing twice gives the colour back. */
  lemma InvertInvolution(c: Color)
    ensures Invert(Invert(c)) == c
  {
  }

  /** The `c / (0xff / (len(colormap) - 1))` quantisation used with five-entry palettes. */
  function PaletteIndex(c: byte): (i: nat)
    ensures i < 5
  {
    c / (0xff / (5 - 1))
  }

  /** The quantisation is monotone and gives the top entry only to 0xFC..0xFF. */
  lemma PaletteIndexBands(c: byte, d: byte)
    ensures c <= d ==> PaletteIndex(c) <= PaletteIndex(d)
    ensures PaletteIndex(c) == 4 <==> c >= 0xFC
    ensures PaletteIndex(c) == 0 <==> c < 63
  {
  }

  // ---------------------------------------------------------------------
  // Filter output

  /**
   * One entry of a filter's output: whether the byte is mapped, and its
   * colour; `None` asks the renderer for its transparency pattern.
   */
  datatype Pixel = Pixel(mapped: bool, color: Option<Color>)

  // ---------------------------------------------------------------------
  // Byte runs

  /** A maximal stretch of mapped or unmapped bytes handed to a filter. */
  datatype Run = Run(mapped: bool, data: seq<byte>)

  /** Number of bytes in all runs together. */
  function TotalLen(runs: seq<Run>): nat
  {
    if runs == [] then 0 else |runs[0].data| + TotalLen(runs[1..])
  }

  /** The bytes of all runs, concatenated in order. */
  function Bytes(runs: seq<Run>): (s: seq<byte>)
    ensures |s| == TotalLen(runs)
  {
    if runs == [] then [] else runs[0].data + Bytes(runs[1..])
  }

  /**
   * What a filter knows about the byte at one position of the frame: whether
   * its run is mapped, its value, its offset inside its run, its offset from
   * the start of the frame, and the bytes of its run.
   */
  datatype Cell = Cell(mapped: bool, value: byte, local: nat, global: nat, data: seq<byte>)

  /** The cell at frame offset `k`, found by walking the runs. */
  function CellAt(runs: seq<Run>, k: nat): (c: Cell)
    requires k < TotalLen(runs)
    ensures c.global == k && c.local < |c.data| && c.value == c.data[c.local]
  {
    CellFrom(runs, k, 0)
  }

  function CellFrom(runs: seq<Run>, k: nat, base: nat): (c: Cell)
    requires k < TotalLen(runs)
    ensures c.global == base + k && c.local < |c.data| && c.value == c.data[c.local]
    decreases runs
  {
    if k < |runs[0].data| then
      Cell(runs[0].mapped, runs[0].data[k], k, base + k, runs[0].data)
    else
      CellFrom(runs[1..], k - |runs[0].data|, base + |runs[0].data|)
  }

  /** The cell walk agrees with the concatenated bytes of the frame. */
  lemma CellAtBytes(runs: seq<Run>, k: nat)
    requires k < TotalLen(runs)
    ensures CellAt(runs, k).value == Bytes(runs)[k]
  {
    CellFromBytes(runs, k, 0);
  }

  lemma {:induction false} CellFromBytes(runs: seq<Run>, k: nat, base: nat)
    requires k < TotalLen(runs)
    ensures CellFrom(runs, k, base).value == Bytes(runs)[k]
    decreases runs
  {
    if k >= |runs[0].data| {
      CellFromBytes(runs[1..], k - |runs[0].data|, base + |runs[0].data|);
    }
  }

  /**
   * The loop every new-style filter runs: one output entry per input byte,
   * computed by `f` from the byte's cell, in input order.
   */
  function Paint(runs: seq<Run>, f: Cell -> Pixel): (r: seq<Pixel>)
    ensures |r| == TotalLen(runs)
    ensures forall k | 0 <= k < |r| :: r[k] == f(CellAt(runs, k))
  {
    PaintFrom(runs, f, 0)
  }

  function PaintFrom(runs: seq<Run>, f: Cell -> Pixel, base: nat): (r: seq<Pixel>)
    ensures |r| == TotalLen(runs)
    ensures forall k | 0 <= k < |r| :: r[k] == f(CellFrom(runs, k, base))
    decreases runs
  {
    if runs == [] then []
    else
      var run := runs[0];
      var head := seq(|run.data|, i requires 0 <= i < |run.data| =>
                        f(Cell(run.mapped, run.data[i], i, base + i, run.data)));
      head + PaintFrom(runs[1..], f, base + |run.data|)
  }

  /**
   * The entries of run `j`, computed by `f` from its cells and appended to
   * those of the runs before it, keep every entry matched with its cell.
   */
  lemma PaintAppend(runs: seq<Run>, j: nat, colors: seq<Pixel>, piece: seq<Pixel>, f: Cell -> Pixel)
    requires j < |runs| && |colors| == TotalLen(runs[..j]) <= TotalLen(runs) && |piece| == |runs[j].data|
    requires forall i | 0 <= i < |piece| ::
               piece[i] == f(Cell(runs[j].mapped, runs[j].data[i], i, |colors| + i, runs[j].data))
    requires forall k | 0 <= k < |colors| :: colors[k] == f(CellAt(runs, k))
    ensures |colors + piece| == TotalLen(runs[..j + 1]) <= TotalLen(runs)
    ensures forall k | 0 <= k < |colors + piece| :: (colors + piece)[k] == f(CellAt(runs, k))
  {
    TotalLenPrefix(runs, j);
    forall k | 0 <= k < |colors + piece|
      ensures (colors + piece)[k] == f(CellAt(runs, k))
    {
      if k < |colors| {
        assert (colors + piece)[k] == colors[k];
      } else {
        var i := k - |colors|;
        assert (colors + piece)[k] == piece[i];
        CellAtRun(runs, j, i);
      }
    }
  }

  /** Appending a run leaves earlier cells alone and adds the run's own cells behind them. */
  lemma {:induction false} CellAtSnoc(runs: seq<Run>, run: Run, k: nat)
    requires k < TotalLen(runs + [run])
    ensures TotalLen(runs + [run]) == TotalLen(runs) + |run.data|
    ensures k < TotalLen(runs) ==> CellAt(runs + [run], k) == CellAt(runs, k)
    ensures k >= TotalLen(runs) ==>
      CellAt(runs + [run], k) == Cell(run.mapped, run.data[k - TotalLen(runs)], k - TotalLen(runs), k, run.data)
  {
    TotalLenSnoc(runs, run);
    CellFromSnoc(runs, run, k, 0);
  }

  lemma {:induction false} TotalLenSnoc(runs: seq<Run>, run: Run)
    ensures TotalLen(runs + [run]) == TotalLen(runs) + |run.data|
  {
    if runs != [] {
      assert (runs + [run])[1..] == runs[1..] + [run];
      TotalLenSnoc(runs[1..], run);
    }
  }

  lemma {:induction false} CellFromSnoc(runs: seq<Run>, run: Run, k: nat, base: nat)
    requires k < TotalLen(runs) + |run.data|
    ensures TotalLen(runs + [run]) == TotalLen(runs) + |run.data|
    ensures k < TotalLen(runs) ==> CellFrom(runs + [run], k, base) == CellFrom(runs, k, base)
    ensures k >= TotalLen(runs) ==>
      CellFrom(runs + [run], k, base)
        == Cell(run.mapped, run.data[k - TotalLen(runs)], k - TotalLen(runs), base + k, run.data)
  {
    TotalLenSnoc(runs, run);
    if k < TotalLen(runs) {
      CellFromSnocEarly(runs, run, k, base);
    } else {
      CellFromSnocLate(runs, run, k, base);
    }
  }

  lemma {:induction false} CellFromSnocEarly(runs: seq<Run>, run: Run, k: nat, base: nat)
    requires k < TotalLen(runs)
    ensures TotalLen(runs + [run]) == TotalLen(runs) + |run.data|
    ensures CellFrom(runs + [run], k, base) == CellFrom(runs, k, base)
    decreases runs
  {
    TotalLenSnoc(runs, run);
    var rs := runs + [run];
    var n := |runs[0].data|;
    assert rs[0] == runs[0];
    assert rs[1..] == runs[1..] + [run];
    assert TotalLen(runs) == n + TotalLen(runs[1..]);
    if k < n {
      assert CellFrom(rs, k, base) == Cell(runs[0].mapped, runs[0].data[k], k, base + k, runs[0].data);
    } else {
      CellFromSnocEarly(runs[1..], run, k - n, base + n);
      assert CellFrom(rs, k, base) == CellFrom(rs[1..], k - n, base + n);
      assert CellFrom(runs, k, base) == CellFrom(runs[1..], k - n, base + n);
    }
  }

  lemma {:induction false} CellFromSnocLate(runs: seq<Run>, run: Run, k: nat, base: nat)
    requires TotalLen(runs) <= k < TotalLen(runs) + |run.data|
    ensures TotalLen(runs + [run]) == TotalLen(runs) + |run.data|
    ensures CellFrom(runs + [run], k, base)
        == Cell(run.mapped, run.data[k - TotalLen(runs)], k - TotalLen(runs), base + k, run.data)
    decreases runs
  {
    TotalLenSnoc(runs, run);
    var rs := runs + [run];
    if runs == [] {
      assert rs == [run];
    } else {
      var n := |runs[0].data|;
      assert rs[0] == runs[0];
      assert rs[1..] == runs[1..] + [run];
      CellFromSnocLate(runs[1..], run, k - n, base + n);
    }
  }

  /** The runs before run `j` end where run `j` starts. */
  lemma {:induction false} TotalLenPrefix(runs: seq<Run>, j: nat)
    requires j < |runs|
    ensures TotalLen(runs[..j + 1]) == TotalLen(runs[..j]) + |runs[j].data|
    ensures TotalLen(runs[..j + 1]) <= TotalLen(runs)
  {
    assert runs[..j + 1] == runs[..j] + [runs[j]];
    TotalLenSnoc(runs[..j], runs[j]);
    TotalLenSplit(runs, j + 1);
  }

  lemma {:induction false} TotalLenSplit(runs: seq<Run>, n: nat)
    requires n <= |runs|
    ensures TotalLen(runs) == TotalLen(runs[..n]) + TotalLen(runs[n..])
  {
    if n == 0 {
      assert runs[..0] == [] && runs[0..] == runs;
    } else {
      TotalLenSplit(runs[1..], n - 1);
      assert runs[1..][..n - 1] == runs[..n][1..];
      assert runs[1..][n - 1..] == runs[n..];
    }
  }

  /**
   * Byte `i` of run `j` sits at frame offset `TotalLen(runs[..j]) + i`: the
   * cell a loop over runs and bytes meets is the cell `CellAt` finds.
   */
  lemma {:induction false} CellAtRun(runs: seq<Run>, j: nat, i: nat)
    requires j < |runs| && i < |runs[j].data|
    ensures TotalLen(runs[..j]) + i < TotalLen(runs)
    ensures CellAt(runs, TotalLen(runs[..j]) + i)
              == Cell(runs[j].mapped, runs[j].data[i], i, TotalLen(runs[..j]) + i, runs[j].data)
  {
    CellFromRun(runs, j, i, 0);
  }

  /** `CellAtRun` indexed by the frame offset `k` itself. */
  lemma CellAtIn(runs: seq<Run>, j: nat, k: nat)
    requires j < |runs| && TotalLen(runs[..j]) <= k < TotalLen(runs[..j]) + |runs[j].data|
    ensures k < TotalLen(runs)
    ensures CellAt(runs, k) == Cell(runs[j].mapped, runs[j].data[k - TotalLen(runs[..j])],
                                    k - TotalLen(runs[..j]), k, runs[j].data)
  {
    CellAtRun(runs, j, k - TotalLen(runs[..j]));
  }

  lemma {:induction false} CellFromRun(runs: seq<Run>, j: nat, i: nat, base: nat)
    requires j < |runs| && i < |runs[j].data|
    ensures TotalLen(runs[..j]) + i < TotalLen(runs)
    ensures CellFrom(runs, TotalLen(runs[..j]) + i, base)
              == Cell(runs[j].mapped, runs[j].data[i], i, base + TotalLen(runs[..j]) + i, runs[j].data)
    decreases j
  {
    if j == 0 {
      assert runs[..0] == [];
      CellFromHead(runs, i, base);
    } else {
      var n := |runs[0].data|;
      var k := TotalLen(runs[..j]) + i;
      var k' := TotalLen(runs[1..][..j - 1]) + i;
      PrefixTail(runs, j);
      assert k == n + k';
      CellFromRun(runs[1..], j - 1, i, base + n);
      assert runs[1..][j - 1] == runs[j];
      assert TotalLen(runs) == n + TotalLen(runs[1..]);
      CellFromSkip(runs, k, base);
      assert CellFrom(runs, k, base) == CellFrom(runs[1..], k', base + n);
    }
  }

  lemma PrefixTail(runs: seq<Run>, j: nat)
    requires 0 < j <= |runs|
    ensures TotalLen(runs[..j]) == |runs[0].data| + TotalLen(runs[1..][..j - 1])
  {
    assert runs[..j][0] == runs[0];
    assert runs[..j][1..] == runs[1..][..j - 1];
  }

  lemma CellFromHead(runs: seq<Run>, i: nat, base: nat)
    requires runs != [] && i < |runs[0].data|
    ensures i < TotalLen(runs)
    ensures CellFrom(runs, i, base) == Cell(runs[0].mapped, runs[0].data[i], i, base + i, runs[0].data)
  {
  }

  lemma CellFromSkip(runs: seq<Run>, k: nat, base: nat)
    requires runs != [] && |runs[0].data| <= k < TotalLen(runs)
    ensures k - |runs[0].data| < TotalLen(runs[1..])
    ensures CellFrom(runs, k, base) == CellFrom(runs[1..], k - |runs[0].data|, base + |runs[0].data|)
  {
  }

  /** The bytes of the mapped runs only, in order. */
  function MappedBytes(runs: seq<Run>): (s: seq<byte>)
    ensures |s| <= TotalLen(runs)
  {
    if runs == [] then []
    else (if runs[0].mapped then runs[0].data else []) + MappedBytes(runs[1..])
  }

  lemma {:induction false} MappedBytesSnoc(runs: seq<Run>, run: Run)
    ensures MappedBytes(runs + [run]) == MappedBytes(runs) + (if run.mapped then run.data else [])
  {
    if runs == [] {
      assert runs + [run] == [run];
    } else {
      var rest := runs[1..];
      assert (runs + [run])[0] == runs[0];
      assert (runs + [run])[1..] == rest + [run];
      MappedBytesSnoc(rest, run);
      var h := if runs[0].mapped then runs[0].data else [];
      var t := if run.mapped then run.data else [];
      calc {
        MappedBytes(runs + [run]);
        h + MappedBytes(rest + [run]);
        h + (MappedBytes(rest) + t);
        (h + MappedBytes(rest)) + t;
      }
    }
  }

  /** `[x] * n`. */
  function Repeat<T>(x: T, n: nat): (r: seq<T>)
    ensures |r| == n && forall k | 0 <= k < n :: r[k] == x
  {
    seq(n, _ => x)
  }

  // ---------------------------------------------------------------------
  // Annotations

  /** One argument of a Python `%` format. */
  datatype Arg = Num(n: int) | Str(s: string)

  /** A `%`-format string with its arguments; producing the characters is not modelled. */
  datatype Text = Text(format: string, args: seq<Arg>)

  /** `(target, arrow colour, text, text colour)` as the filters return them. */
  datatype Annotation = Annotation(target: Option<int>, arrow: Option<Color>, text: Text, textColor: Option<Color>)

  /** An annotation without a target or arrow: a plain line of the side panel. */
  function Line(format: string, args: seq<Arg>, color: Option<Color>): (a: Annotation)
    ensures a.target == None && a.arrow == None && a.text.args == args
  {
    Annotation(None, None, Text(format, args), color)
  }
}
