/**
 * The debugger trace filter.  A debugger hook counts how often each
 * instruction pointer was seen; the filter draws visited instructions in
 * a colour that grows lighter with the count, flashes the current
 * instruction, and draws other bytes in a five-colour palette.  The
 * instruction and stack pointers, item sizes, the user's answer to the
 * "Clear trace?" prompt and Qt's floating-point lightening are inputs.
 */
module Dbg {
  import opened Common

  /** A visited address stops counting once its count exceeds this. */
  const MaxHits: nat := 100

  /** The flash period in milliseconds, what the timer callback answers. */
  const FlashMs: int := 200

  const Palette: seq<int> := [0x1d59eb, 0x3466c0, 0x0ea7ac, 0x22b592, 0xebaf1d]

  const IpColor: Color := Rgb(0xFF, 0x45, 0x00)

  /** `Qt.red` and `Qt.green`. */
  const QtRed: Color := Rgb(0xFF, 0x00, 0x00)
  const QtGreen: Color := Rgb(0x00, 0xFF, 0x00)

  /** What the hook remembers of a visited address: how often it was hit, and its item's size then. */
  datatype Hit = Hit(count: nat, size: int)

  /** The debugger hook: the hits, whether its timer is registered, whether a view is attached. */
  datatype Hook = Hook(hits: map<int, Hit>, timer: bool, attached: bool)

  function InitialHook(): Hook
  {
    Hook(map[], false, false)
  }

  /**
   * `add_hit` at instruction pointer `ip`: a new address is stored with
   * count 1 and its item size; a known one counts up while its count is at
   * most `MaxHits`.  No other address changes.
   */
  function AddHit(h: Hook, ip: int, itemSize: int -> int): (r: Hook)
    ensures r.hits.Keys == h.hits.Keys + {ip}
    ensures ip !in h.hits ==> r.hits[ip] == Hit(1, itemSize(ip))
    ensures ip in h.hits ==> r.hits[ip].size == h.hits[ip].size
    ensures ip in h.hits && h.hits[ip].count <= MaxHits ==> r.hits[ip].count == h.hits[ip].count + 1
    ensures ip in h.hits && h.hits[ip].count > MaxHits ==> r.hits[ip] == h.hits[ip]
    ensures forall ea | ea in h.hits && ea != ip :: r.hits[ea] == h.hits[ea]
    ensures r.timer == h.timer && r.attached == h.attached
  {
    if ip in h.hits then
      var d := h.hits[ip];
      if d.count <= MaxHits then h.(hits := h.hits[ip := d.(count := d.count + 1)]) else h
    else h.(hits := h.hits[ip := Hit(1, itemSize(ip))])
  }

  /** Every recorded count lies in `1..MaxHits + 1`, and every recorded size is at least one. */
  predicate HitsOk(h: Hook)
  {
    forall ea | ea in h.hits :: 1 <= h.hits[ea].count <= MaxHits + 1 && h.hits[ea].size >= 1
  }

  /** `add_hit` keeps every count within `1..MaxHits + 1`: the counter saturates. */
  lemma AddHitKeepsBounds(h: Hook, ip: int, itemSize: int -> int)
    requires HitsOk(h) && itemSize(ip) >= 1
    ensures HitsOk(AddHit(h, ip, itemSize))
  {
  }

  /** `n` hits in a row at `ip`. */
  function AddHits(h: Hook, ip: int, n: nat, itemSize: int -> int): Hook
  {
    if n == 0 then h else AddHit(AddHits(h, ip, n - 1, itemSize), ip, itemSize)
  }

  /**
   * Hitting a new address `n >= 1` times leaves its count at `n`, up to
   * `MaxHits + 1`, where it stays; the size is the one seen first.
   */
  lemma {:induction false} RepeatedHits(h: Hook, ip: int, n: nat, itemSize: int -> int)
    requires ip !in h.hits && n >= 1
    ensures ip in AddHits(h, ip, n, itemSize).hits
    ensures AddHits(h, ip, n, itemSize).hits[ip] == Hit(if n <= MaxHits + 1 then n else MaxHits + 1, itemSize(ip))
  {
    if n > 1 {
      RepeatedHits(h, ip, n - 1, itemSize);
    }
  }

  /** `enable_timer`: any registered timer is dropped and a fresh one registered. */
  function EnableTimer(h: Hook): (r: Hook)
    ensures r.timer && r.(timer := h.timer) == h
  {
    h.(timer := true)
  }

  /** `disable_timer`, what `dbg_process_exit` and `dbg_process_detach` do. */
  function DisableTimer(h: Hook): (r: Hook)
    ensures !r.timer && r.(timer := h.timer) == h
  {
    h.(timer := false)
  }

  /** `set_pw`, called on activation: the view is attached and a timer runs. */
  function SetPw(h: Hook): (r: Hook)
    ensures r.attached && r.timer && r.hits == h.hits
  {
    var h' := h.(attached := true);
    if h'.timer then h' else EnableTimer(h')
  }

  /** `dbg_suspend_process`: the timer is (re)started and the current instruction pointer counted. */
  function OnSuspend(h: Hook, ip: int, itemSize: int -> int): (r: Hook)
    ensures r.timer && r.attached == h.attached
    ensures r.hits == AddHit(h, ip, itemSize).hits
  {
    AddHit(EnableTimer(h), ip, itemSize)
  }

  /**
   * `flash_cb`: with a view attached the flash flag flips; the callback
   * always asks to run again in 200 ms.
   */
  function FlashCb(h: Hook, highlighted: bool): (r: (bool, int))
    ensures r.1 == FlashMs
    ensures r.0 == (if h.attached then !highlighted else highlighted)
  {
    (if h.attached then !highlighted else highlighted, FlashMs)
  }

  /** Two ticks give the flash flag back. */
  lemma FlashTwice(h: Hook, highlighted: bool)
    ensures FlashCb(h, FlashCb(h, highlighted).0).0 == highlighted
  {
  }

  /** `on_mb_click`: a right click answered with "yes" clears the trace; nothing else changes. */
  function OnMbClick(h: Hook, rightButton: bool, answer: int): (r: Hook)
    ensures rightButton && answer == 1 ==> r.hits == map[]
    ensures !(rightButton && answer == 1) ==> r == h
    ensures r.timer == h.timer && r.attached == h.attached
  {
    if rightButton && answer == 1 then h.(hits := map[]) else h
  }

  /** `byte2coloridx`: the palette entry of a byte. */
  function ByteToColorIdx(c: byte): (i: nat)
    ensures i < |Palette|
    ensures i == c / 63
  {
    PaletteIndex(c)
  }

  /**
   * `get_annotations`: the instruction pointer in red and the stack
   * pointer in green, each pointing at its address, but only when both are
   * known.
   */
  function GetAnnotations(ip: Option<int>, sp: Option<int>): (ann: seq<Annotation>)
    ensures ip.None? || sp.None? ==> ann == []
    ensures ip.Some? && sp.Some? ==>
              && |ann| == 2
              && ann[0].target == Some(ip.value) && ann[0].arrow == Some(QtRed) && ann[0].text.args == [Num(ip.value)]
              && ann[1].target == Some(sp.value) && ann[1].arrow == Some(QtGreen) && ann[1].text.args == [Num(sp.value)]
  {
    if ip.Some? && sp.Some? then
      [Annotation(Some(ip.value), Some(QtRed), Text("%X (IP)", [Num(ip.value)]), Some(QtRed)),
       Annotation(Some(sp.value), Some(QtGreen), Text("%X (SP)", [Num(sp.value)]), Some(QtGreen))]
    else []
  }

  // ---------------------------------------------------------------------
  // Drawing

  /**
   * What `render_img` reads: the flash flag, the instruction pointer (if a
   * debugger runs), the hits, item sizes, and the lightened colour Qt makes
   * of the palette's last entry for a hit count.
   */
  datatype Ctx = Ctx(highlighted: bool, ip: Option<int>, hits: map<int, Hit>,
                     itemSize: int -> int, hitColor: nat -> Color)

  /** Item sizes and recorded sizes are at least one, so every step of the scan moves forward. */
  ghost predicate CtxOk(ctx: Ctx)
  {
    && (forall ea :: ctx.itemSize(ea) >= 1)
    && (forall ea | ea in ctx.hits :: ctx.hits[ea].size >= 1)
  }

  /**
   * The entries drawn for the byte at offset `i` of a mapped buffer at
   * `start`: the whole current instruction in the flash colour while
   * flashing; a visited instruction's recorded size in its hit colour; or
   * the byte alone in its palette colour.  The first two can reach past the
   * buffer's end.
   */
  function Block(ctx: Ctx, buf: seq<byte>, start: int, i: nat): (b: seq<Pixel>)
    requires CtxOk(ctx) && i < |buf|
    ensures |b| >= 1
  {
    var ea := start + i;
    if ctx.highlighted && ctx.ip == Some(ea) then Repeat(Pixel(true, Some(IpColor)), ctx.itemSize(ea))
    else if ea in ctx.hits then Repeat(Pixel(true, Some(ctx.hitColor(ctx.hits[ea].count))), ctx.hits[ea].size)
    else [Pixel(true, Some(Hex(Palette[ByteToColorIdx(buf[i])])))]
  }

  /** The blocks at the visited offsets `vs`, one after the other. */
  function Blocks(ctx: Ctx, buf: seq<byte>, start: int, vs: seq<nat>): seq<Pixel>
    requires CtxOk(ctx) && forall j | 0 <= j < |vs| :: vs[j] < |buf|
  {
    if vs == [] then []
    else Blocks(ctx, buf, start, vs[..|vs| - 1]) + Block(ctx, buf, start, vs[|vs| - 1])
  }

  /**
   * The offsets the scan of a mapped buffer visits: from 0, each one past
   * the previous one's block, all inside the buffer, the last block
   * reaching its end.
   */
  ghost predicate Visits(ctx: Ctx, buf: seq<byte>, start: int, vs: seq<nat>)
    requires CtxOk(ctx)
  {
    && (forall j | 0 <= j < |vs| :: vs[j] < |buf|)
    && (vs != [] ==> vs[0] == 0)
    && (forall j | 0 <= j < |vs| - 1 :: vs[j + 1] == vs[j] + |Block(ctx, buf, start, vs[j])|)
  }

  lemma BlocksSnoc(ctx: Ctx, buf: seq<byte>, start: int, vs: seq<nat>, i: nat)
    requires CtxOk(ctx) && i < |buf| && forall j | 0 <= j < |vs| :: vs[j] < |buf|
    ensures Blocks(ctx, buf, start, vs + [i]) == Blocks(ctx, buf, start, vs) + Block(ctx, buf, start, i)
  {
    assert (vs + [i])[..|vs|] == vs;
  }

  /** The scan of a mapped buffer has reached offset `i`, having drawn `piece` at the visited offsets `vs`. */
  ghost predicate ScanInv(ctx: Ctx, buf: seq<byte>, start: int, piece: seq<Pixel>, vs: seq<nat>, i: nat)
    requires CtxOk(ctx)
  {
    && Visits(ctx, buf, start, vs)
    && (vs == [] ==> i == 0)
    && (vs != [] ==> i == vs[|vs| - 1] + |Block(ctx, buf, start, vs[|vs| - 1])|)
    && piece == Blocks(ctx, buf, start, vs) && |piece| == i
    && forall j | 0 <= j < |vs| :: vs[j] < |piece| && piece[vs[j]] == Block(ctx, buf, start, vs[j])[0]
  }

  lemma ScanStep(ctx: Ctx, buf: seq<byte>, start: int, piece: seq<Pixel>, vs: seq<nat>, i: nat)
    requires CtxOk(ctx) && i < |buf| && ScanInv(ctx, buf, start, piece, vs, i)
    ensures var b := Block(ctx, buf, start, i);
            ScanInv(ctx, buf, start, piece + b, vs + [i], i + |b|)
  {
    var b := Block(ctx, buf, start, i);
    BlocksSnoc(ctx, buf, start, vs, i);
    VisitsSnoc(ctx, buf, start, vs, i);
    FirstsSnoc(ctx, buf, start, piece, vs, i, b);
  }

  lemma VisitsSnoc(ctx: Ctx, buf: seq<byte>, start: int, vs: seq<nat>, i: nat)
    requires CtxOk(ctx) && i < |buf| && Visits(ctx, buf, start, vs)
    requires vs == [] ==> i == 0
    requires vs != [] ==> i == vs[|vs| - 1] + |Block(ctx, buf, start, vs[|vs| - 1])|
    ensures Visits(ctx, buf, start, vs + [i])
  {
    var vs' := vs + [i];
    assert forall j | 0 <= j < |vs| :: vs'[j] == vs[j];
  }

  lemma FirstsSnoc(ctx: Ctx, buf: seq<byte>, start: int, piece: seq<Pixel>, vs: seq<nat>, i: nat, b: seq<Pixel>)
    requires CtxOk(ctx) && i < |buf| && |piece| == i && b == Block(ctx, buf, start, i)
    requires forall j | 0 <= j < |vs| :: vs[j] < |buf|
    requires forall j | 0 <= j < |vs| :: vs[j] < |piece| && piece[vs[j]] == Block(ctx, buf, start, vs[j])[0]
    ensures forall j | 0 <= j < |vs + [i]| ::
              (vs + [i])[j] < |piece + b| && (piece + b)[(vs + [i])[j]] == Block(ctx, buf, start, (vs + [i])[j])[0]
  {
    var vs' := vs + [i];
    forall j | 0 <= j < |vs'|
      ensures vs'[j] < |piece + b| && (piece + b)[vs'[j]] == Block(ctx, buf, start, vs'[j])[0]
    {
      if j < |vs| {
        assert vs'[j] == vs[j];
        assert (piece + b)[vs[j]] == piece[vs[j]];
      } else {
        assert vs'[j] == i;
        assert (piece + b)[i] == b[0];
      }
    }
  }

  /**
   * The scan of one mapped buffer at address `start`: the entries are
   * the blocks of the visited offsets; the scan visits the buffer from its
   * first byte to its end, so there are at least as many entries as bytes,
   * and a visited byte's own entry is the first of its block.
   */
  method ScanMapped(ctx: Ctx, buf: seq<byte>, start: int) returns (piece: seq<Pixel>, vs: seq<nat>)
    requires CtxOk(ctx)
    ensures Visits(ctx, buf, start, vs)
    ensures (vs == []) == (buf == [])
    ensures vs != [] ==> vs[|vs| - 1] + |Block(ctx, buf, start, vs[|vs| - 1])| >= |buf|
    ensures piece == Blocks(ctx, buf, start, vs)
    ensures |piece| >= |buf|
    ensures forall j | 0 <= j < |vs| :: vs[j] < |piece| && piece[vs[j]] == Block(ctx, buf, start, vs[j])[0]
  {
    piece, vs := [], [];
    var i := 0;
    while i < |buf|
      invariant ScanInv(ctx, buf, start, piece, vs, i)
      decreases |buf| - i
    {
      var b := Block(ctx, buf, start, i);
      ScanStep(ctx, buf, start, piece, vs, i);
      piece, vs := piece + b, vs + [i];
      i := i + |b|;
    }
  }

  /** The pieces of all runs, one after the other. */
  function Flatten(pieces: seq<seq<Pixel>>): seq<Pixel>
  {
    if pieces == [] then [] else Flatten(pieces[..|pieces| - 1]) + pieces[|pieces| - 1]
  }

  lemma FlattenSnoc(pieces: seq<seq<Pixel>>, p: seq<Pixel>)
    ensures Flatten(pieces + [p]) == Flatten(pieces) + p
  {
    assert (pieces + [p])[..|pieces|] == pieces;
  }

  /** What `render_img` promises for run `r`, drawn as `piece` after visiting `vs`. */
  ghost predicate RunOk(ctx: Ctx, runs: seq<Run>, addr: int, r: nat, piece: seq<Pixel>, vs: seq<nat>)
    requires CtxOk(ctx) && r < |runs|
  {
    var buf, start := runs[r].data, addr + TotalLen(runs[..r]);
    && (!runs[r].mapped ==> piece == Repeat(Pixel(false, None), |buf|) && vs == [])
    && (runs[r].mapped ==>
          && Visits(ctx, buf, start, vs) && (vs == []) == (buf == [])
          && piece == Blocks(ctx, buf, start, vs) && |piece| >= |buf|)
  }

  /** One run of `render_img`: the scan of a mapped run, or a transparent entry per byte. */
  method DrawRun(ctx: Ctx, runs: seq<Run>, addr: int, r: nat) returns (piece: seq<Pixel>, vs: seq<nat>)
    requires CtxOk(ctx) && r < |runs|
    ensures RunOk(ctx, runs, addr, r, piece, vs)
    ensures |piece| >= |runs[r].data|
  {
    var buf := runs[r].data;
    if runs[r].mapped {
      piece, vs := ScanMapped(ctx, buf, addr + TotalLen(runs[..r]));
    } else {
      piece, vs := Repeat(Pixel(false, None), |buf|), [];
    }
  }

  lemma RunsSnoc(ctx: Ctx, runs: seq<Run>, addr: int, pieces: seq<seq<Pixel>>, visits: seq<seq<nat>>,
                 piece: seq<Pixel>, vs: seq<nat>)
    requires CtxOk(ctx) && |pieces| == |visits| < |runs|
    requires forall q | 0 <= q < |pieces| :: RunOk(ctx, runs, addr, q, pieces[q], visits[q])
    requires RunOk(ctx, runs, addr, |pieces|, piece, vs)
    ensures forall q | 0 <= q < |pieces| + 1 :: RunOk(ctx, runs, addr, q, (pieces + [piece])[q], (visits + [vs])[q])
  {
    forall q | 0 <= q < |pieces| + 1
      ensures RunOk(ctx, runs, addr, q, (pieces + [piece])[q], (visits + [vs])[q])
    {
      if q < |pieces| {
        assert (pieces + [piece])[q] == pieces[q] && (visits + [vs])[q] == visits[q];
      }
    }
  }

  /**
   * `render_img`: every run contributes one piece, in order.  An unmapped
   * run is transparent, byte for byte; a mapped run is the scan of its
   * bytes at their addresses, which may draw past the run's end (a long
   * instruction at its last bytes), so positions in the output need not
   * match addresses after such a run.
   */
  method RenderImg(ctx: Ctx, runs: seq<Run>, addr: int)
    returns (colors: seq<Pixel>, pieces: seq<seq<Pixel>>, visits: seq<seq<nat>>)
    requires CtxOk(ctx)
    ensures |pieces| == |visits| == |runs|
    ensures colors == Flatten(pieces)
    ensures forall r | 0 <= r < |runs| :: RunOk(ctx, runs, addr, r, pieces[r], visits[r])
    ensures |colors| >= TotalLen(runs)
  {
    colors, pieces, visits := [], [], [];
    var goffs := 0;
    var r := 0;
    while r < |runs|
      invariant 0 <= r <= |runs| && |pieces| == |visits| == r
      invariant goffs == TotalLen(runs[..r])
      invariant colors == Flatten(pieces) && |colors| >= goffs
      invariant forall q | 0 <= q < r :: RunOk(ctx, runs, addr, q, pieces[q], visits[q])
    {
      TotalLenPrefix(runs, r);
      var buf := runs[r].data;
      var piece, vs := DrawRun(ctx, runs, addr, r);
      FlattenSnoc(pieces, piece);
      RunsSnoc(ctx, runs, addr, pieces, visits, piece, vs);
      colors, pieces, visits := colors + piece, pieces + [piece], visits + [vs];
      goffs := goffs + |buf|;
      r := r + 1;
    }
    assert runs[..|runs|] == runs;
  }
}
