/**
 * The item-length filter: the bytes of a buffer are striped by the items
 * that cover them, alternating red and black, one stripe per item.  The
 * head of the item at an address and the item's size are inputs; IDA
 * reports every item size as at least one byte.
 */
module ItemLen {
  import opened Common

  const Red: Color := Rgb(0xFF, 0x00, 0x00)
  const Black: Color := Rgb(0x00, 0x00, 0x00)

  /** The colour of stripe `j`: the stripes alternate, starting with red. */
  function StripeColor(j: nat): Color
  {
    if j % 2 == 0 then Red else Black
  }

  /** `xrange(sz)` runs `sz` times, and not at all for `sz <= 0`. */
  function Count(sz: int): nat
  {
    if sz <= 0 then 0 else sz
  }

  /** The total number of entries the stripes of lengths `lens` draw. */
  function Width(lens: seq<int>): nat
  {
    if lens == [] then 0 else Width(lens[..|lens| - 1]) + Count(lens[|lens| - 1])
  }

  /** The reference picture: stripe `j` is `lens[j]` entries of `StripeColor(j)`, in order. */
  function Stripes(lens: seq<int>): (r: seq<Color>)
    ensures |r| == Width(lens)
  {
    if lens == [] then []
    else Stripes(lens[..|lens| - 1]) + Repeat(StripeColor(|lens| - 1), Count(lens[|lens| - 1]))
  }

  /**
   * Entry `Width(lens[..j]) + i` of the picture, `i` inside stripe `j`, has
   * stripe `j`'s colour: the stripes lie side by side in order.
   */
  lemma {:induction false} StripesAt(lens: seq<int>, j: nat, i: nat)
    requires j < |lens| && i < Count(lens[j])
    ensures Width(lens[..j]) + i < |Stripes(lens)|
    ensures Stripes(lens)[Width(lens[..j]) + i] == StripeColor(j)
    decreases |lens|
  {
    var n := |lens| - 1;
    var init := lens[..n];
    assert lens[..n] == init;
    if j == n {
      assert lens[..j] == init;
    } else {
      assert init[..j] == lens[..j];
      StripesAt(init, j, i);
      WidthPrefix(init, j + 1);
    }
  }

  /** A prefix of the stripes is no wider than the whole. */
  lemma {:induction false} WidthPrefix(lens: seq<int>, m: nat)
    requires m <= |lens|
    ensures Width(lens[..m]) <= Width(lens)
    decreases |lens|
  {
    if m < |lens| {
      var n := |lens| - 1;
      assert lens[..n][..m] == lens[..m];
      WidthPrefix(lens[..n], m);
    } else {
      assert lens[..m] == lens;
    }
  }

  /** One more stripe is drawn after the others. */
  lemma StripesSnoc(lens: seq<int>, sz: int)
    ensures Stripes(lens + [sz]) == Stripes(lens) + Repeat(StripeColor(|lens|), Count(sz))
  {
    assert (lens + [sz])[..|lens|] == lens;
  }

  /** The length of the first stripe: the item size at `start`, less the part of the item before `start`. */
  function FirstSize(start: int, itemHead: int -> int, itemSize: int -> int): int
  {
    var head := itemHead(start);
    if head < start then itemSize(start) - (start - head) else itemSize(start)
  }

  /**
   * Where the loop continues after a stripe of `sz` entries at `ea`: when
   * the stripe runs past `end`, `sz` is replaced by the overshoot
   * `ea + sz - end` before `ea` advances.
   */
  function Advance(ea: int, sz: int, end: int): int
  {
    if ea + sz > end then ea + (ea + sz - end) else ea + sz
  }

  /**
   * The stripes recorded so far follow the loop: the first starts at
   * `start` with length `first`, each later one where the previous one
   * advanced to, with that address's item size, and all start before `end`.
   */
  predicate Trace(lens: seq<int>, eas: seq<int>, start: int, end: int, first: int, itemSize: int -> int)
  {
    && |lens| == |eas|
    && (eas != [] ==> eas[0] == start && lens[0] == first)
    && (forall j | 1 <= j < |lens| :: lens[j] == itemSize(eas[j]))
    && (forall j | 0 <= j < |eas| :: eas[j] < end)
    && (forall j | 0 <= j < |eas| - 1 :: eas[j + 1] == Advance(eas[j], lens[j], end))
  }

  /** The loop is about to draw a stripe of `sz` entries at `ea`. */
  predicate Next(lens: seq<int>, eas: seq<int>, start: int, end: int, first: int, itemSize: int -> int, ea: int, sz: int)
    requires |lens| == |eas|
  {
    && (eas == [] ==> ea == start && sz == first)
    && (eas != [] ==> sz == itemSize(ea) && ea == Advance(eas[|eas| - 1], lens[|lens| - 1], end))
  }

  lemma TraceSnoc(lens: seq<int>, eas: seq<int>, start: int, end: int, first: int, itemSize: int -> int, ea: int, sz: int)
    requires Trace(lens, eas, start, end, first, itemSize) && Next(lens, eas, start, end, first, itemSize, ea, sz)
    requires ea < end
    ensures Trace(lens + [sz], eas + [ea], start, end, first, itemSize)
  {
    var lens', eas' := lens + [sz], eas + [ea];
    assert forall j | 0 <= j < |eas| :: eas'[j] == eas[j] && lens'[j] == lens[j];
  }

  /**
   * `do_filter`: stripes of the items from `addr` to the buffer's end.  It
   * records the start `eas[j]` and length `lens[j]` of every stripe: the
   * first is at `addr` with `FirstSize`, each later one at the address the
   * previous one advanced to, with that address's item size.  Every stripe
   * starts before the end, and the last advances past it.  The colours are
   * exactly the stripes, which cover at least the whole buffer (the last one
   * may reach beyond it).
   */
  method DoFilter(buf: seq<byte>, addr: int, itemHead: int -> int, itemSize: int -> int)
    returns (colors: seq<Color>, lens: seq<int>, eas: seq<int>)
    requires forall ea :: itemSize(ea) >= 1
    ensures |lens| == |eas|
    ensures buf == [] ==> lens == [] && colors == []
    ensures buf != [] ==> |eas| > 0 && eas[0] == addr && lens[0] == FirstSize(addr, itemHead, itemSize)
    ensures forall j | 1 <= j < |lens| :: lens[j] == itemSize(eas[j])
    ensures forall j | 0 <= j < |eas| :: eas[j] < addr + |buf|
    ensures forall j | 0 <= j < |eas| - 1 :: eas[j + 1] == Advance(eas[j], lens[j], addr + |buf|)
    ensures |eas| > 0 ==> Advance(eas[|eas| - 1], lens[|lens| - 1], addr + |buf|) >= addr + |buf|
    ensures colors == Stripes(lens)
    ensures |colors| >= |buf|
  {
    var start := addr;
    var end := start + |buf|;
    var ea := start;
    var first := FirstSize(start, itemHead, itemSize);
    var sz := first;
    colors, lens, eas := [], [], [];
    while ea < end
      invariant Trace(lens, eas, start, end, first, itemSize)
      invariant Next(lens, eas, start, end, first, itemSize, ea, sz)
      invariant colors == Stripes(lens)
      invariant |colors| >= ea - start
      decreases end - ea + (if sz < 1 then 2 - sz else 0)
    {
      var col := StripeColor(|lens|);
      colors := colors + Repeat(col, Count(sz));
      StripesSnoc(lens, sz);
      TraceSnoc(lens, eas, start, end, first, itemSize, ea, sz);
      lens, eas := lens + [sz], eas + [ea];
      if ea + sz > end {
        sz := ea + sz - end;
      }
      ea := ea + sz;
      sz := itemSize(ea);
    }
  }

}
