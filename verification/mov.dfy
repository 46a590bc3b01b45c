/**
 * The load/store filter: `mov` instructions that read or write memory are
 * drawn in green (read) or red (write) over their whole length, other
 * bytes in a teal palette; the side panel lists the instructions found.
 * The disassembler is an input: `decodeAt(ea)` is the instruction decoded
 * at the head of the item holding `ea`, or `None` when that head cannot
 * be decoded or is not code.
 */
module Mov {
  import opened Common

  /** Operand kinds: the three memory kinds the filter looks for, and all others. */
  datatype Operand = Mem | Phrase | Displ | OtherOperand

  /** What the filter reads from a decoded instruction. */
  datatype Insn = Insn(isMov: bool, op1: Operand, op2: Operand, len: nat)

  type Decoder = int -> Option<Insn>

  datatype Access = Read | Write

  /** One recorded instruction: its running number, its access, and where the scan met it. */
  datatype MovAnn = MovAnn(n: nat, acc: Access, ea: int)

  /** The s+b teal palette, lightest first. */
  const Colormap: seq<int> := [0x007777, 0x006666, 0x005555, 0x004444, 0x003333]

  const TextColor: int := 0xb2b2b2

  /** How many entries the side panel lists before it cuts off, minus one. */
  const Threshold: nat := 9

  function InsnColor(acc: Access): int
  {
    match acc
    case Read => 0x00cc37
    case Write => 0xCC3700
  }

  predicate IsMemory(op: Operand)
  {
    op == Mem || op == Phrase || op == Displ
  }

  /**
   * `_ins2color`: `(colour, length, access)` of the instruction holding
   * `ea`, with access -1 and colour 0 when it is not a `mov` touching
   * memory.  Access 1 (write) when the first operand is memory, else 0
   * (read) when the second is.
   */
  function Ins2Color(d: Option<Insn>): (r: (int, nat, int))
    ensures r.2 == 1 <==> d.Some? && d.value.len > 0 && d.value.isMov && IsMemory(d.value.op1)
    ensures r.2 == 0 <==> d.Some? && d.value.len > 0 && d.value.isMov && !IsMemory(d.value.op1) && IsMemory(d.value.op2)
    ensures r.2 != -1 <==> r.0 != 0
    ensures r.2 == 1 ==> r.0 == InsnColor(Write)
    ensures r.2 == 0 ==> r.0 == InsnColor(Read)
    ensures r.1 == (if d.Some? then d.value.len else 0)
  {
    match d
    case None => (0, 0, -1)
    case Some(insn) =>
      if insn.len == 0 || !insn.isMov then (0, insn.len, -1)
      else if IsMemory(insn.op1) then (InsnColor(Write), insn.len, 1)
      else if IsMemory(insn.op2) then (InsnColor(Read), insn.len, 0)
      else (0, insn.len, -1)
  }

  /**
   * Where the scan finds a `mov` touching memory: its access and length.
   * `HitAtIsLoopTest` shows this is the loop's test `acc != -1 and col and
   * _len` on the result of `Ins2Color`.
   */
  function HitAt(ea: int, decodeAt: Decoder): Option<(Access, nat)>
  {
    match decodeAt(ea)
    case None => None
    case Some(insn) =>
      if insn.len > 0 && insn.isMov && (IsMemory(insn.op1) || IsMemory(insn.op2))
      then Some((if IsMemory(insn.op1) then Write else Read, insn.len))
      else None
  }

  /** The scan's hit is exactly what the loop's test accepts from `_ins2color`, with its access and length. */
  lemma HitAtIsLoopTest(ea: int, decodeAt: Decoder)
    ensures var t := Ins2Color(decodeAt(ea));
            HitAt(ea, decodeAt) == (if t.2 != -1 && t.0 != 0 && t.1 != 0 then Some((if t.2 == 1 then Write else Read, t.1)) else None)
  {
  }

  function HitLen(ea: int, decodeAt: Decoder): nat
  {
    match HitAt(ea, decodeAt)
    case None => 0
    case Some(h) => h.1
  }

  /** The entry at offset `p` of the buffer starting at `start` lies in the span drawn for `a`. */
  predicate Covers(a: MovAnn, start: int, p: int, decodeAt: Decoder)
  {
    start <= a.ea && a.ea - start <= p < a.ea - start + HitLen(a.ea, decodeAt)
  }

  function PaletteColor(c: byte): int
  {
    Colormap[PaletteIndex(c)]
  }

  /**
   * What the scan promises for the entry at offset `p` of the buffer that
   * starts at `start`: inside the span of a recorded instruction it has
   * that instruction's colour; outside every span it is a byte where no
   * instruction was found, in its palette colour.
   */
  predicate PointOk(px: Pixel, c: byte, start: int, p: int, anns: seq<MovAnn>, decodeAt: Decoder)
  {
    && (forall j | 0 <= j < |anns| && Covers(anns[j], start, p, decodeAt) ::
          px == Pixel(true, Some(Hex(InsnColor(anns[j].acc)))))
    && ((forall j | 0 <= j < |anns| :: !Covers(anns[j], start, p, decodeAt)) ==>
          px == Pixel(true, Some(Hex(PaletteColor(c)))) && HitAt(start + p, decodeAt).None?)
  }

  /** Adding instructions whose spans miss the entry keeps its promise. */
  lemma PointOkExtend(px: Pixel, c: byte, start: int, p: int, anns: seq<MovAnn>, more: seq<MovAnn>, decodeAt: Decoder)
    requires PointOk(px, c, start, p, anns, decodeAt)
    requires forall j | 0 <= j < |more| :: !Covers(more[j], start, p, decodeAt)
    ensures PointOk(px, c, start, p, anns + more, decodeAt)
  {
    var all := anns + more;
    assert forall j | 0 <= j < |anns| :: all[j] == anns[j];
    assert forall j | |anns| <= j < |all| :: all[j] == more[j - |anns|];
  }

  /** Putting instructions whose spans miss the entry in front keeps its promise. */
  lemma PointOkPrepend(px: Pixel, c: byte, start: int, p: int, anns: seq<MovAnn>, more: seq<MovAnn>, decodeAt: Decoder)
    requires PointOk(px, c, start, p, more, decodeAt)
    requires forall j | 0 <= j < |anns| :: !Covers(anns[j], start, p, decodeAt)
    ensures PointOk(px, c, start, p, anns + more, decodeAt)
  {
    var all := anns + more;
    assert forall j | 0 <= j < |anns| :: all[j] == anns[j];
    assert forall j | 0 <= j < |more| :: all[|anns| + j] == more[j];
    assert forall j | |anns| <= j < |all| :: all[j] == more[j - |anns|];
  }

  /** The invariant of the scan over one buffer at position `i`. */
  predicate ScanInv(data: seq<byte>, start: int, n0: nat, decodeAt: Decoder, piece: seq<Pixel>, anns: seq<MovAnn>, i: nat)
  {
    && i <= |data| && |piece| == i
    && (forall j | 0 <= j < |anns| :: anns[j].n == n0 + j)
    && (forall j | 0 <= j < |anns| ::
          start <= anns[j].ea < start + i && HitAt(anns[j].ea, decodeAt) == Some((anns[j].acc, HitLen(anns[j].ea, decodeAt))))
    && (forall j | 0 <= j < |anns| :: anns[j].ea - start + HitLen(anns[j].ea, decodeAt) <= i || i == |data|)
    && (forall j, j' | 0 <= j < j' < |anns| :: anns[j].ea + HitLen(anns[j].ea, decodeAt) <= anns[j'].ea)
    && (forall p | 0 <= p < i :: PointOk(piece[p], data[p], start, p, anns, decodeAt))
  }

  /** The step of the scan at a hit: the instruction is recorded and its span drawn. */
  lemma ScanHit(data: seq<byte>, start: int, n0: nat, decodeAt: Decoder, piece: seq<Pixel>, anns: seq<MovAnn>, i: nat,
                acc: Access, len: nat, maxlen: nat)
    requires ScanInv(data, start, n0, decodeAt, piece, anns, i) && i < |data|
    requires HitAt(start + i, decodeAt) == Some((acc, len))
    requires maxlen == (if |data| - i < len then |data| - i else len)
    ensures var a := MovAnn(n0 + |anns|, acc, start + i);
            ScanInv(data, start, n0, decodeAt, piece + Repeat(Pixel(true, Some(Hex(InsnColor(acc)))), maxlen), anns + [a], i + maxlen)
  {
    ScanHitAnns(data, start, n0, decodeAt, piece, anns, i, acc, len, maxlen);
    ScanHitPoints(data, start, n0, decodeAt, piece, anns, i, acc, len, maxlen);
  }

  /** At a hit, the recorded instructions stay numbered, in order and apart. */
  lemma ScanHitAnns(data: seq<byte>, start: int, n0: nat, decodeAt: Decoder, piece: seq<Pixel>, anns: seq<MovAnn>, i: nat,
                    acc: Access, len: nat, maxlen: nat)
    requires ScanInv(data, start, n0, decodeAt, piece, anns, i) && i < |data|
    requires HitAt(start + i, decodeAt) == Some((acc, len))
    requires maxlen == (if |data| - i < len then |data| - i else len)
    ensures var anns' := anns + [MovAnn(n0 + |anns|, acc, start + i)];
            && (forall j | 0 <= j < |anns'| :: anns'[j].n == n0 + j)
            && (forall j | 0 <= j < |anns'| ::
                  start <= anns'[j].ea < start + i + maxlen
                  && HitAt(anns'[j].ea, decodeAt) == Some((anns'[j].acc, HitLen(anns'[j].ea, decodeAt))))
            && (forall j | 0 <= j < |anns'| :: anns'[j].ea - start + HitLen(anns'[j].ea, decodeAt) <= i + maxlen || i + maxlen == |data|)
            && (forall j, j' | 0 <= j < j' < |anns'| :: anns'[j].ea + HitLen(anns'[j].ea, decodeAt) <= anns'[j'].ea)
  {
    var a := MovAnn(n0 + |anns|, acc, start + i);
    var anns' := anns + [a];
    assert HitLen(a.ea, decodeAt) == len;
    assert forall j | 0 <= j < |anns| :: anns'[j] == anns[j];
    assert anns'[|anns|] == a;
  }

  /** At a hit, every byte drawn so far, old and new, is coloured as its position demands. */
  lemma ScanHitPoints(data: seq<byte>, start: int, n0: nat, decodeAt: Decoder, piece: seq<Pixel>, anns: seq<MovAnn>, i: nat,
                      acc: Access, len: nat, maxlen: nat)
    requires ScanInv(data, start, n0, decodeAt, piece, anns, i) && i < |data|
    requires HitAt(start + i, decodeAt) == Some((acc, len))
    requires maxlen == (if |data| - i < len then |data| - i else len)
    ensures var piece', anns' := piece + Repeat(Pixel(true, Some(Hex(InsnColor(acc)))), maxlen),
                                 anns + [MovAnn(n0 + |anns|, acc, start + i)];
            forall p | 0 <= p < i + maxlen :: PointOk(piece'[p], data[p], start, p, anns', decodeAt)
  {
    var a := MovAnn(n0 + |anns|, acc, start + i);
    var piece', anns' := piece + Repeat(Pixel(true, Some(Hex(InsnColor(acc)))), maxlen), anns + [a];
    assert HitLen(a.ea, decodeAt) == len;
    forall p | 0 <= p < i + maxlen
      ensures PointOk(piece'[p], data[p], start, p, anns', decodeAt)
    {
      if p < i {
        PointOkExtend(piece[p], data[p], start, p, anns, [a], decodeAt);
      } else {
        assert Covers(a, start, p, decodeAt) && anns'[|anns|] == a;
        assert forall j | 0 <= j < |anns| :: !Covers(anns[j], start, p, decodeAt);
      }
    }
  }

  /** The step of the scan at a byte where no instruction is found. */
  lemma ScanMiss(data: seq<byte>, start: int, n0: nat, decodeAt: Decoder, piece: seq<Pixel>, anns: seq<MovAnn>, i: nat)
    requires ScanInv(data, start, n0, decodeAt, piece, anns, i) && i < |data|
    requires HitAt(start + i, decodeAt).None?
    ensures ScanInv(data, start, n0, decodeAt, piece + [Pixel(true, Some(Hex(PaletteColor(data[i]))))], anns, i + 1)
  {
    var piece' := piece + [Pixel(true, Some(Hex(PaletteColor(data[i]))))];
    assert forall j | 0 <= j < |anns| :: !Covers(anns[j], start, i, decodeAt);
    assert forall p | 0 <= p < i :: piece'[p] == piece[p];
  }

  /**
   * The scan of one mapped buffer starting at address `start`, numbering
   * instructions from `n0`: at each position, a hit is recorded and its
   * whole length drawn in its colour (cut at the buffer's end), and the
   * scan jumps past it; any other byte takes its palette colour.
   */
  method ScanBuffer(data: seq<byte>, start: int, n0: nat, decodeAt: Decoder)
    returns (piece: seq<Pixel>, anns: seq<MovAnn>)
    ensures |piece| == |data|
    ensures forall j | 0 <= j < |anns| :: anns[j].n == n0 + j
    ensures forall j | 0 <= j < |anns| ::
              start <= anns[j].ea < start + |data| && HitAt(anns[j].ea, decodeAt) == Some((anns[j].acc, HitLen(anns[j].ea, decodeAt)))
    ensures forall j, j' | 0 <= j < j' < |anns| :: anns[j].ea + HitLen(anns[j].ea, decodeAt) <= anns[j'].ea
    ensures forall p | 0 <= p < |data| :: PointOk(piece[p], data[p], start, p, anns, decodeAt)
  {
    piece, anns := [], [];
    var i := 0;
    while i < |data|
      invariant ScanInv(data, start, n0, decodeAt, piece, anns, i)
      decreases |data| - i
    {
      var hit := HitAt(start + i, decodeAt);
      if hit.Some? {
        var acc, len := hit.value.0, hit.value.1;
        var maxlen := if |data| - i < len then |data| - i else len;
        ScanHit(data, start, n0, decodeAt, piece, anns, i, acc, len, maxlen);
        piece := piece + Repeat(Pixel(true, Some(Hex(InsnColor(acc)))), maxlen);
        anns := anns + [MovAnn(n0 + |anns|, acc, start + i)];
        i := i + maxlen;
      } else {
        ScanMiss(data, start, n0, decodeAt, piece, anns, i);
        piece := piece + [Pixel(true, Some(Hex(PaletteColor(data[i]))))];
        i := i + 1;
      }
    }
  }

  /** What the filter promises for frame entry `k`. */
  predicate CellOk(px: Pixel, cell: Cell, addr: int, k: int, anns: seq<MovAnn>, decodeAt: Decoder)
  {
    && (!cell.mapped ==> px == Pixel(false, None))
    && (cell.mapped ==> PointOk(px, cell.value, addr + k - cell.local, cell.local, anns, decodeAt))
  }

  /** The recorded instructions of the frame so far: numbered, ascending, at mapped hits before `n`. */
  predicate AnnsOk(runs: seq<Run>, addr: int, decodeAt: Decoder, anns: seq<MovAnn>, n: nat)
    requires n <= TotalLen(runs)
  {
    && (forall j | 0 <= j < |anns| :: anns[j].n == j)
    && (forall j, j' | 0 <= j < j' < |anns| :: anns[j].ea < anns[j'].ea)
    && (forall j | 0 <= j < |anns| ::
          && addr <= anns[j].ea < addr + n
          && CellAt(runs, anns[j].ea - addr).mapped
          && HitAt(anns[j].ea, decodeAt).Some? && HitAt(anns[j].ea, decodeAt).value.0 == anns[j].acc)
  }

  /** What the scan of buffer `r`, starting at frame offset `base`, hands to the loop over buffers. */
  predicate PieceOk(runs: seq<Run>, r: nat, addr: int, decodeAt: Decoder, base: nat, n0: nat,
                    piece: seq<Pixel>, more: seq<MovAnn>)
    requires r < |runs|
  {
    var start, data := addr + base, runs[r].data;
    && |piece| == |data|
    && (!runs[r].mapped ==> more == [] && piece == Repeat(Pixel(false, None), |data|))
    && (forall j | 0 <= j < |more| :: more[j].n == n0 + j)
    && (forall j | 0 <= j < |more| ::
          start <= more[j].ea < start + |data| && HitAt(more[j].ea, decodeAt) == Some((more[j].acc, HitLen(more[j].ea, decodeAt))))
    && (forall j, j' | 0 <= j < j' < |more| :: more[j].ea + HitLen(more[j].ea, decodeAt) <= more[j'].ea)
    && (runs[r].mapped ==> forall p | 0 <= p < |data| :: PointOk(piece[p], data[p], start, p, more, decodeAt))
  }

  /** The body of the loop over buffers: scan a mapped buffer, mark an unmapped one transparent. */
  method ScanRun(runs: seq<Run>, r: nat, addr: int, decodeAt: Decoder, base: nat, n0: nat)
    returns (piece: seq<Pixel>, more: seq<MovAnn>)
    requires r < |runs|
    ensures PieceOk(runs, r, addr, decodeAt, base, n0, piece, more)
  {
    var run := runs[r];
    more := [];
    if run.mapped {
      piece, more := ScanBuffer(run.data, addr + base, n0, decodeAt);
    } else {
      piece := Repeat(Pixel(false, None), |run.data|);
    }
  }

  /**
   * `on_process_buffer`: one entry per byte of all buffers, in order, and
   * the recorded instructions of this frame, numbered from 0 in address
   * order.  An entry inside the drawn span of a recorded instruction of its
   * own buffer takes that instruction's colour; every other mapped entry is
   * a byte where no instruction was found and takes its palette colour;
   * unmapped entries are transparent.
   */
  method OnProcessBuffer(runs: seq<Run>, addr: int, decodeAt: Decoder)
    returns (anns: seq<MovAnn>, colors: seq<Pixel>)
    ensures |colors| == TotalLen(runs)
    ensures AnnsOk(runs, addr, decodeAt, anns, TotalLen(runs))
    ensures forall k | 0 <= k < |colors| :: CellOk(colors[k], CellAt(runs, k), addr, k, anns, decodeAt)
  {
    colors, anns := [], [];
    var r := 0;
    while r < |runs|
      invariant 0 <= r <= |runs| && |colors| == TotalLen(runs[..r]) <= TotalLen(runs)
      invariant AnnsOk(runs, addr, decodeAt, anns, |colors|)
      invariant forall k | 0 <= k < |colors| :: CellOk(colors[k], CellAt(runs, k), addr, k, anns, decodeAt)
    {
      TotalLenPrefix(runs, r);
      var piece, more := ScanRun(runs, r, addr, decodeAt, |colors|, |anns|);
      AppendRun(runs, r, addr, decodeAt, colors, anns, piece, more);
      colors, anns := colors + piece, anns + more;
      r := r + 1;
    }
    assert runs[..|runs|] == runs;
  }

  /**
   * One step of the loop over buffers: appending buffer `r`'s entries and
   * instructions keeps every promise about the frame so far.
   */
  lemma AppendRun(runs: seq<Run>, r: nat, addr: int, decodeAt: Decoder,
                  colors: seq<Pixel>, anns: seq<MovAnn>, piece: seq<Pixel>, more: seq<MovAnn>)
    requires r < |runs| && |colors| == TotalLen(runs[..r])
    requires TotalLen(runs[..r + 1]) == TotalLen(runs[..r]) + |runs[r].data| <= TotalLen(runs)
    requires AnnsOk(runs, addr, decodeAt, anns, |colors|)
    requires forall k | 0 <= k < |colors| :: CellOk(colors[k], CellAt(runs, k), addr, k, anns, decodeAt)
    requires PieceOk(runs, r, addr, decodeAt, |colors|, |anns|, piece, more)
    ensures AnnsOk(runs, addr, decodeAt, anns + more, |colors + piece|)
    ensures forall k | 0 <= k < |colors + piece| :: CellOk((colors + piece)[k], CellAt(runs, k), addr, k, anns + more, decodeAt)
  {
    AppendAnns(runs, r, addr, decodeAt, colors, anns, piece, more);
    forall k | 0 <= k < |colors + piece|
      ensures CellOk((colors + piece)[k], CellAt(runs, k), addr, k, anns + more, decodeAt)
    {
      AppendCell(runs, r, addr, decodeAt, colors, anns, piece, more, k);
    }
  }

  lemma AppendAnns(runs: seq<Run>, r: nat, addr: int, decodeAt: Decoder,
                   colors: seq<Pixel>, anns: seq<MovAnn>, piece: seq<Pixel>, more: seq<MovAnn>)
    requires r < |runs| && |colors| == TotalLen(runs[..r])
    requires TotalLen(runs[..r + 1]) == TotalLen(runs[..r]) + |runs[r].data| <= TotalLen(runs)
    requires AnnsOk(runs, addr, decodeAt, anns, |colors|)
    requires PieceOk(runs, r, addr, decodeAt, |colors|, |anns|, piece, more)
    ensures AnnsOk(runs, addr, decodeAt, anns + more, |colors + piece|)
  {
    AppendNumbers(runs, r, addr, decodeAt, colors, anns, piece, more);
    AppendOrder(runs, r, addr, decodeAt, colors, anns, piece, more);
    AppendPlaces(runs, r, addr, decodeAt, colors, anns, piece, more);
  }

  lemma AppendNumbers(runs: seq<Run>, r: nat, addr: int, decodeAt: Decoder,
                   colors: seq<Pixel>, anns: seq<MovAnn>, piece: seq<Pixel>, more: seq<MovAnn>)
    requires r < |runs| && |colors| == TotalLen(runs[..r])
    requires TotalLen(runs[..r + 1]) == TotalLen(runs[..r]) + |runs[r].data| <= TotalLen(runs)
    requires AnnsOk(runs, addr, decodeAt, anns, |colors|)
    requires PieceOk(runs, r, addr, decodeAt, |colors|, |anns|, piece, more)
    ensures forall j | 0 <= j < |anns + more| :: (anns + more)[j].n == j
  {
    var anns' := anns + more;
    assert forall j | |anns| <= j < |anns'| :: anns'[j] == more[j - |anns|];
  }

  lemma AppendOrder(runs: seq<Run>, r: nat, addr: int, decodeAt: Decoder,
                   colors: seq<Pixel>, anns: seq<MovAnn>, piece: seq<Pixel>, more: seq<MovAnn>)
    requires r < |runs| && |colors| == TotalLen(runs[..r])
    requires TotalLen(runs[..r + 1]) == TotalLen(runs[..r]) + |runs[r].data| <= TotalLen(runs)
    requires AnnsOk(runs, addr, decodeAt, anns, |colors|)
    requires PieceOk(runs, r, addr, decodeAt, |colors|, |anns|, piece, more)
    ensures forall j, j' | 0 <= j < j' < |anns + more| :: (anns + more)[j].ea < (anns + more)[j'].ea
  {
    var anns' := anns + more;
    forall j, j' | 0 <= j < j' < |anns'|
      ensures anns'[j].ea < anns'[j'].ea
    {
      if j' < |anns| {
        assert anns'[j] == anns[j] && anns'[j'] == anns[j'];
      } else if j < |anns| {
        assert anns'[j] == anns[j] && anns'[j'] == more[j' - |anns|];
      } else {
        assert anns'[j] == more[j - |anns|] && anns'[j'] == more[j' - |anns|];
      }
    }
  }

  lemma AppendPlaces(runs: seq<Run>, r: nat, addr: int, decodeAt: Decoder,
                   colors: seq<Pixel>, anns: seq<MovAnn>, piece: seq<Pixel>, more: seq<MovAnn>)
    requires r < |runs| && |colors| == TotalLen(runs[..r])
    requires TotalLen(runs[..r + 1]) == TotalLen(runs[..r]) + |runs[r].data| <= TotalLen(runs)
    requires AnnsOk(runs, addr, decodeAt, anns, |colors|)
    requires PieceOk(runs, r, addr, decodeAt, |colors|, |anns|, piece, more)
    ensures forall j | 0 <= j < |anns + more| ::
              && addr <= (anns + more)[j].ea < addr + |colors + piece|
              && CellAt(runs, (anns + more)[j].ea - addr).mapped
              && HitAt((anns + more)[j].ea, decodeAt).Some?
              && HitAt((anns + more)[j].ea, decodeAt).value.0 == (anns + more)[j].acc
  {
    var start := addr + |colors|;
    var anns' := anns + more;
    forall j | 0 <= j < |anns'|
      ensures && addr <= anns'[j].ea < addr + |colors + piece|
              && CellAt(runs, anns'[j].ea - addr).mapped
              && HitAt(anns'[j].ea, decodeAt).Some?
              && HitAt(anns'[j].ea, decodeAt).value.0 == anns'[j].acc
    {
      if j < |anns| {
        assert anns'[j] == anns[j];
      } else {
        var m := more[j - |anns|];
        assert anns'[j] == m;
        CellAtRun(runs, r, m.ea - start);
      }
    }
  }

  lemma AppendCell(runs: seq<Run>, r: nat, addr: int, decodeAt: Decoder,
                   colors: seq<Pixel>, anns: seq<MovAnn>, piece: seq<Pixel>, more: seq<MovAnn>, k: nat)
    requires r < |runs| && |colors| == TotalLen(runs[..r])
    requires TotalLen(runs[..r + 1]) == TotalLen(runs[..r]) + |runs[r].data| <= TotalLen(runs)
    requires AnnsOk(runs, addr, decodeAt, anns, |colors|)
    requires forall k | 0 <= k < |colors| :: CellOk(colors[k], CellAt(runs, k), addr, k, anns, decodeAt)
    requires PieceOk(runs, r, addr, decodeAt, |colors|, |anns|, piece, more)
    requires k < |colors + piece|
    ensures CellOk((colors + piece)[k], CellAt(runs, k), addr, k, anns + more, decodeAt)
  {
    var base := |colors|;
    if k < base {
      assert (colors + piece)[k] == colors[k];
      assert CellOk(colors[k], CellAt(runs, k), addr, k, anns, decodeAt);
      AppendCellOld(runs, addr, decodeAt, colors, anns, more, k);
    } else {
      assert (colors + piece)[k] == piece[k - base];
      assert forall j | 0 <= j < |anns| :: anns[j].ea < addr + base;
      PiecePoint(runs, r, addr, decodeAt, base, |anns|, piece, more, k - base);
      AppendCellAt(runs, r, addr, decodeAt, base, anns, piece, more, k);
    }
  }

  /** Entry `k` of the frame, in buffer `r`, keeps the scan's promise. */
  lemma AppendCellAt(runs: seq<Run>, r: nat, addr: int, decodeAt: Decoder, base: nat,
                     anns: seq<MovAnn>, piece: seq<Pixel>, more: seq<MovAnn>, k: nat)
    requires r < |runs| && base == TotalLen(runs[..r])
    requires TotalLen(runs[..r + 1]) == base + |runs[r].data| <= TotalLen(runs)
    requires base <= k < base + |runs[r].data| && |piece| == |runs[r].data|
    requires !runs[r].mapped ==> piece[k - base] == Pixel(false, None)
    requires runs[r].mapped ==> PointOk(piece[k - base], runs[r].data[k - base], addr + base, k - base, more, decodeAt)
    requires forall j | 0 <= j < |anns| :: anns[j].ea < addr + base
    ensures CellOk(piece[k - base], CellAt(runs, k), addr, k, anns + more, decodeAt)
  {
    CellAtIn(runs, r, k);
    AppendCellNew(CellAt(runs, k), addr, k, addr + base, decodeAt, anns, piece[k - base], more,
                  runs[r].mapped, runs[r].data[k - base], k - base);
  }

  /** What the scan of buffer `r` promises about its entry at position `p`. */
  lemma PiecePoint(runs: seq<Run>, r: nat, addr: int, decodeAt: Decoder, base: nat, n0: nat,
                   piece: seq<Pixel>, more: seq<MovAnn>, p: nat)
    requires r < |runs| && p < |runs[r].data|
    requires PieceOk(runs, r, addr, decodeAt, base, n0, piece, more)
    ensures |piece| == |runs[r].data|
    ensures !runs[r].mapped ==> piece[p] == Pixel(false, None)
    ensures runs[r].mapped ==> PointOk(piece[p], runs[r].data[p], addr + base, p, more, decodeAt)
  {
    if !runs[r].mapped {
      assert piece[p] == Repeat(Pixel(false, None), |piece|)[p];
    }
  }

  /** An entry of an earlier buffer keeps its promise: the new instructions all lie after it. */
  lemma AppendCellOld(runs: seq<Run>, addr: int, decodeAt: Decoder,
                      colors: seq<Pixel>, anns: seq<MovAnn>, more: seq<MovAnn>, k: nat)
    requires k < |colors| <= TotalLen(runs)
    requires CellOk(colors[k], CellAt(runs, k), addr, k, anns, decodeAt)
    requires forall j | 0 <= j < |more| :: addr + |colors| <= more[j].ea
    ensures CellOk(colors[k], CellAt(runs, k), addr, k, anns + more, decodeAt)
  {
    var cell := CellAt(runs, k);
    if cell.mapped {
      PointOkExtend(colors[k], cell.value, addr + k - cell.local, cell.local, anns, more, decodeAt);
    }
  }

  /** An entry of buffer `r` keeps the scan's promise: the earlier instructions all lie before it. */
  lemma AppendCellNew(cell: Cell, addr: int, k: int, start: int, decodeAt: Decoder,
                      anns: seq<MovAnn>, px: Pixel, more: seq<MovAnn>, mapped: bool, c: byte, p: int)
    requires cell.mapped == mapped && cell.value == c && cell.local == p && start == addr + k - p
    requires !mapped ==> px == Pixel(false, None)
    requires mapped ==> PointOk(px, c, start, p, more, decodeAt)
    requires forall j | 0 <= j < |anns| :: anns[j].ea < start
    ensures CellOk(px, cell, addr, k, anns + more, decodeAt)
  {
    if mapped {
      PointOkPrepend(px, c, start, p, anns, more, decodeAt);
    }
  }

  /**
   * `_get_selection_offs`: where the listed window starts, so that it
   * ends around the middle recorded instruction: the window start never
   * passes the middle entry, and the middle entry is at most half a
   * window behind it.
   */
  function GetSelectionOffs(annCnt: nat): (offs: nat)
    ensures offs <= annCnt / 2
    ensures annCnt / 2 - offs <= Threshold / 2
    ensures annCnt / 2 <= Threshold / 2 ==> offs == 0
    ensures annCnt / 2 > Threshold / 2 ==> annCnt / 2 - offs == Threshold / 2
  {
    if annCnt / 2 > Threshold / 2 then annCnt / 2 - Threshold / 2 else 0
  }

  function Entry(a: MovAnn, disasm: int -> string): Annotation
  {
    var col := Some(Hex(InsnColor(a.acc)));
    Annotation(Some(a.ea), col, Text("   %X:  %s", [Num(a.ea), Str(disasm(a.ea))]), col)
  }

  /**
   * `on_get_annotations`: the caption, then the recorded instructions from
   * the window start on, one line each pointing at its address, at most
   * `Threshold + 1` of them; when that many were listed, a last line says
   * how many recorded instructions are not listed.
   */
  function OnGetAnnotations(anns: seq<MovAnn>, disasm: int -> string): (ann: seq<Annotation>)
    ensures var offs := GetSelectionOffs(|anns|);
            var shown := if |anns| - offs <= Threshold then |anns| - offs else Threshold + 1;
            var footer := |anns| - offs > Threshold;
            && |ann| == 1 + shown + (if footer then 1 else 0)
            && ann[0] == Line("Mov instructions:", [], Some(Hex(Colormap[4])))
            && (forall i | 1 <= i <= shown :: ann[i] == Entry(anns[offs + i - 1], disasm))
            && (forall i | 1 <= i <= shown :: ann[i].target == Some(anns[offs + i - 1].ea))
            && (footer ==> ann[|ann| - 1].target == None && ann[|ann| - 1].text.args == [Num(|anns| - shown)])
  {
    var header := Line("Mov instructions:", [], Some(Hex(Colormap[4])));
    if |anns| == 0 then [header]
    else
      var offs := GetSelectionOffs(|anns|);
      [header] + ListFrom(anns, offs, 0, disasm)
  }

  /** The listing loop from entry `x`, with `i` entries listed so far. */
  function ListFrom(anns: seq<MovAnn>, x: nat, i: nat, disasm: int -> string): (r: seq<Annotation>)
    requires x <= |anns| && i <= Threshold
    ensures var shown := if |anns| - x <= Threshold - i then |anns| - x else Threshold + 1 - i;
            var footer := |anns| - x > Threshold - i;
            && |r| == shown + (if footer then 1 else 0)
            && (forall q | 0 <= q < shown :: r[q] == Entry(anns[x + q], disasm))
            && (footer ==> r[|r| - 1] == Line("<%d more not shown>", [Num(|anns| - (i + shown))], Some(Hex(Colormap[4]))))
    decreases |anns| - x
  {
    if x == |anns| then []
    else
      var e := Entry(anns[x], disasm);
      if i + 1 > Threshold then
        [e, Line("<%d more not shown>", [Num(|anns| - (i + 1))], Some(Hex(Colormap[4])))]
      else [e] + ListFrom(anns, x + 1, i + 1, disasm)
  }
}
