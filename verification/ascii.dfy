/**
 * The Ascii filter: printable stretches of at least `threshold` bytes that
 * a non-printable byte of the same buffer ends are highlighted; all other
 * mapped bytes are dark grey.
 */
module Ascii {
  import opened Common

  datatype State = State(threshold: int)

  function Initial(): State
  {
    State(4)
  }

  /** `_set_threshold`: the answer of the prompt, unless it was cancelled. */
  function SetThreshold(s: State, answer: Option<int>): (r: State)
    ensures answer.Some? ==> r.threshold == answer.value
    ensures answer.None? ==> r == s
  {
    if answer.Some? then State(answer.value) else s
  }

  predicate Printable(c: byte)
  {
    0x20 <= c <= 0x7E
  }

  // ---------------------------------------------------------------------
  // Reference definition of the highlighted bytes

  /** The first position at or after `i` that ends a printable stretch: a non-printable byte or the end. */
  function StretchEnd(buf: seq<byte>, i: nat): (e: nat)
    requires i <= |buf|
    ensures i <= e <= |buf|
    decreases |buf| - i
  {
    if i == |buf| || !Printable(buf[i]) then i else StretchEnd(buf, i + 1)
  }

  /** The first byte of the printable stretch holding printable byte `i`. */
  function StretchStart(buf: seq<byte>, i: nat): (s: nat)
    requires i < |buf|
    ensures s <= i
  {
    if i == 0 || !Printable(buf[i - 1]) then i else StretchStart(buf, i - 1)
  }

  /** `k` starts a printable stretch. */
  predicate IsStart(buf: seq<byte>, k: nat)
  {
    k < |buf| && Printable(buf[k]) && (k == 0 || !Printable(buf[k - 1]))
  }

  /** The stretch starting at `k` is recorded: a non-printable byte ends it and it is long enough. */
  predicate Recorded(buf: seq<byte>, t: int, k: nat)
  {
    IsStart(buf, k) && StretchEnd(buf, k) < |buf| && StretchEnd(buf, k) - k >= t
  }

  /** Byte `i` is highlighted: it is printable and its stretch is recorded. */
  predicate Highlighted(buf: seq<byte>, t: int, i: nat)
  {
    i < |buf| && Printable(buf[i]) && Recorded(buf, t, StretchStart(buf, i))
  }

  lemma {:induction false} StretchEndPrintable(buf: seq<byte>, k: nat, i: nat)
    requires k <= |buf| && k <= i < StretchEnd(buf, k)
    ensures Printable(buf[i]) && StretchEnd(buf, i) == StretchEnd(buf, k)
    decreases i - k
  {
    if k < i {
      StretchEndPrintable(buf, k + 1, i);
    }
  }

  /** A stretch end before the buffer's end is a non-printable byte. */
  lemma {:induction false} StretchEndStops(buf: seq<byte>, k: nat)
    requires k <= |buf|
    ensures StretchEnd(buf, k) < |buf| ==> !Printable(buf[StretchEnd(buf, k)])
    decreases |buf| - k
  {
    if k < |buf| && Printable(buf[k]) {
      StretchEndStops(buf, k + 1);
    }
  }

  /** A printable run from `k` up to a stopping position `i` ends exactly at `i`. */
  lemma {:induction false} StretchEndAt(buf: seq<byte>, k: nat, i: nat)
    requires k <= i <= |buf|
    requires forall j | k <= j < i :: Printable(buf[j])
    requires i == |buf| || !Printable(buf[i])
    ensures StretchEnd(buf, k) == i
    decreases i - k
  {
    if k < i {
      StretchEndAt(buf, k + 1, i);
    }
  }

  /** Every byte of a stretch finds that stretch's start. */
  lemma {:induction false} StartOfInside(buf: seq<byte>, k: nat, i: nat)
    requires IsStart(buf, k) && k <= i < StretchEnd(buf, k)
    ensures Printable(buf[i]) && StretchStart(buf, i) == k
    decreases i - k
  {
    StretchEndPrintable(buf, k, i);
    if k < i {
      StartOfInside(buf, k, i - 1);
      StretchEndPrintable(buf, k, i - 1);
    }
  }

  /** A printable byte lies in the stretch its start begins. */
  lemma {:induction false} StartCovers(buf: seq<byte>, i: nat)
    requires i < |buf| && Printable(buf[i])
    ensures IsStart(buf, StretchStart(buf, i)) && i < StretchEnd(buf, StretchStart(buf, i))
  {
    if !(i == 0 || !Printable(buf[i - 1])) {
      StartCovers(buf, i - 1);
      var s := StretchStart(buf, i - 1);
      StretchEndPrintable(buf, s, i - 1);
    }
  }

  // ---------------------------------------------------------------------
  // The two passes of `render_img` over one mapped buffer

  /**
   * The first pass: the stretches to highlight, as a map from start offset
   * to length, exactly the recorded stretches.
   */
  method ScanStretches(buf: seq<byte>, t: int) returns (offsets: map<nat, nat>)
    ensures forall k :: k in offsets <==> Recorded(buf, t, k)
    ensures forall k | k in offsets :: k < |buf| && offsets[k] == StretchEnd(buf, k) - k
  {
    offsets := map[];
    var last: Option<nat> := None;
    var curLen := 0;
    var i := 0;
    while i < |buf|
      invariant 0 <= i <= |buf|
      invariant last.None? <==> i == 0 || !Printable(buf[i - 1])
      invariant last.Some? ==> IsStart(buf, last.value) && last.value < i && curLen == i - last.value
      invariant last.Some? ==> forall j | last.value <= j < i :: Printable(buf[j])
      invariant forall k :: k in offsets <==> Recorded(buf, t, k) && StretchEnd(buf, k) < i
      invariant forall k | k in offsets :: k < |buf| && offsets[k] == StretchEnd(buf, k) - k
    {
      var c := buf[i];
      if Printable(c) {
        if last.Some? {
          curLen := curLen + 1;
        } else {
          last := Some(i);
          curLen := 1;
        }
        forall k: nat | IsStart(buf, k)
          ensures StretchEnd(buf, k) != i
        {
          StretchEndStops(buf, k);
        }
      } else {
        forall k: nat | IsStart(buf, k) && StretchEnd(buf, k) == i
          ensures last.Some? && k == last.value
        {
          assert k < i;
          StretchEndPrintable(buf, k, i - 1);
          if last.Some? {
            if k < last.value {
              StretchEndPrintable(buf, k, last.value - 1);
            }
          }
        }
        if last.Some? {
          StretchEndAt(buf, last.value, i);
          if curLen >= t {
            offsets := offsets[last.value := curLen];
          }
        }
        last := None;
        curLen := 0;
      }
      i := i + 1;
    }
  }

  /** The colour of a highlighted byte: `c + 0x81`, yellow for letters and digits, red otherwise. */
  function HlColor(c: byte): Color
  {
    var b := c + (0xFF - 0x7E);
    if 0x41 <= c <= 0x5A || 0x61 <= c <= 0x7A || 0x30 <= c <= 0x39 then QRgb(b, b, 0)
    else QRgb(b, 0, 0)
  }

  const Background: Color := Rgb(0x10, 0x10, 0x10)

  /** Some stretch of the map covers position `i`. */
  predicate Covered(offsets: map<nat, nat>, i: nat)
  {
    exists k | k in offsets :: k <= i < k + offsets[k]
  }

  /**
   * The second pass: every byte starts as background, then each recorded
   * stretch is recoloured byte by byte.
   */
  method Colorize(buf: seq<byte>, offsets: map<nat, nat>) returns (local: seq<Color>)
    requires forall k | k in offsets :: k + offsets[k] <= |buf|
    ensures |local| == |buf|
    ensures forall i | 0 <= i < |buf| :: local[i] == if Covered(offsets, i) then HlColor(buf[i]) else Background
  {
    local := Repeat(Background, |buf|);
    var todo := offsets.Keys;
    while todo != {}
      invariant todo <= offsets.Keys && |local| == |buf|
      invariant forall i | 0 <= i < |buf| ::
                  local[i] == if exists k | k in offsets && k !in todo :: k <= i < k + offsets[k]
                              then HlColor(buf[i]) else Background
      decreases todo
    {
      var k :| k in todo;
      var j := 0;
      while j < offsets[k]
        invariant 0 <= j <= offsets[k] && |local| == |buf|
        invariant forall i | 0 <= i < |buf| ::
                    local[i] == if (exists k' | k' in offsets && k' !in todo :: k' <= i < k' + offsets[k'])
                                   || k <= i < k + j
                                then HlColor(buf[i]) else Background
      {
        local := local[k + j := HlColor(buf[k + j])];
        j := j + 1;
      }
      todo := todo - {k};
    }
  }

  /** The colours of one mapped buffer: highlight exactly where the reference definition says. */
  method RenderBuffer(buf: seq<byte>, t: int) returns (local: seq<Color>)
    ensures |local| == |buf|
    ensures forall i | 0 <= i < |buf| :: local[i] == if Highlighted(buf, t, i) then HlColor(buf[i]) else Background
  {
    var offsets := ScanStretches(buf, t);
    local := Colorize(buf, offsets);
    forall i | 0 <= i < |buf|
      ensures Covered(offsets, i) <==> Highlighted(buf, t, i)
    {
      if Covered(offsets, i) {
        var k :| k in offsets && k <= i < k + offsets[k];
        StartOfInside(buf, k, i);
      }
      if Highlighted(buf, t, i) {
        StartCovers(buf, i);
        var k := StretchStart(buf, i);
        assert k in offsets;
      }
    }
  }

  /** The highlighted bytes are printable, so their colour is bright: `0xA1 <= c + 0x81 <= 0xFF`. */
  lemma HighlightBright(buf: seq<byte>, t: int, i: nat)
    requires Highlighted(buf, t, i)
    ensures 0xA1 <= HlColor(buf[i]).r <= 0xFF && HlColor(buf[i]).b == 0
  {
  }

  /** A stretch running into the end of its buffer is never highlighted, however long. */
  lemma TailNotHighlighted(buf: seq<byte>, t: int, i: nat)
    requires i < |buf| && forall j | i <= j < |buf| :: Printable(buf[j])
    ensures !Highlighted(buf, t, i)
  {
    StartCovers(buf, i);
    var k := StretchStart(buf, i);
    StretchEndStops(buf, k);
  }

  function AsciiPixel(s: State, cell: Cell): Pixel
  {
    if !cell.mapped then Pixel(false, Some(Hex(0)))
    else if Highlighted(cell.data, s.threshold, cell.local) then Pixel(true, Some(HlColor(cell.value)))
    else Pixel(true, Some(Background))
  }

  /** The entries of one run, whose first byte sits at frame offset `base`. */
  method RenderRun(s: State, run: Run, base: nat) returns (piece: seq<Pixel>)
    ensures |piece| == |run.data|
    ensures forall i | 0 <= i < |piece| :: piece[i] == AsciiPixel(s, Cell(run.mapped, run.data[i], i, base + i, run.data))
  {
    if run.mapped {
      var local := RenderBuffer(run.data, s.threshold);
      piece := seq(|local|, i requires 0 <= i < |local| => Pixel(true, Some(local[i])));
    } else {
      piece := Repeat(Pixel(false, Some(Hex(0))), |run.data|);
    }
  }

  /**
   * `render_img`: one entry per byte of all buffers, in order; stretches
   * are found in each buffer separately (the tracking restarts with every
   * buffer); unmapped bytes are `(False, 0)`.
   */
  method RenderImg(s: State, runs: seq<Run>) returns (colors: seq<Pixel>)
    ensures |colors| == TotalLen(runs)
    ensures forall k | 0 <= k < |colors| :: colors[k] == AsciiPixel(s, CellAt(runs, k))
  {
    ghost var f: Cell -> Pixel := c => AsciiPixel(s, c);
    colors := [];
    var j := 0;
    while j < |runs|
      invariant 0 <= j <= |runs| && |colors| == TotalLen(runs[..j]) <= TotalLen(runs)
      invariant forall k | 0 <= k < |colors| :: colors[k] == f(CellAt(runs, k))
    {
      var piece := RenderRun(s, runs[j], |colors|);
      PaintAppend(runs, j, colors, piece, f);
      colors := colors + piece;
      j := j + 1;
    }
    assert runs[..|runs|] == runs;
  }
}
