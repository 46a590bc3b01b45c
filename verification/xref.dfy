/**
 * The xrefs filter: the number of cross-references to each address becomes
 * a grey level.  `xrefcount`, which walks IDA's cross-reference list, is
 * the input `count`.
 */
module Xref {
  import opened Bits
  import opened Common

  /** `(count * 16) & 0xFF`: the grey level of an address with `n` references. */
  function Level(n: nat): (v: byte)
  {
    Low8(n * 16)
  }

  /**
   * Every reference adds 16 to the level modulo 256: sixteen references, or
   * any multiple of sixteen, wrap around to black.
   */
  lemma LevelWraps(n: nat)
    ensures Level(n) == 16 * (n % 16)
    ensures Level(n) == 0 <==> n % 16 == 0
  {
    DivModUnique(n * 16, 256, n / 16, 16 * (n % 16));
  }

  /** `do_filter`: one grey per byte, in order, from the count at its address. */
  method DoFilter(buf: seq<byte>, addr: int, count: int -> nat) returns (colors: seq<Color>)
    ensures |colors| == |buf|
    ensures forall i | 0 <= i < |buf| ::
              var v := Level(count(addr + i)); colors[i] == Rgb(v, v, v)
  {
    colors := [];
    var i := 0;
    while i < |buf|
      invariant 0 <= i <= |buf| && |colors| == i
      invariant forall j | 0 <= j < i :: var v := Level(count(addr + j)); colors[j] == Rgb(v, v, v)
    {
      var c := Level(count(addr + i));
      colors := colors + [Rgb(c, c, c)];
      i := i + 1;
    }
  }

  /** `get_tooltip`: the reference count of the address. */
  function Tooltip(addr: int, count: int -> nat): (t: Text)
    ensures t.args == [Num(count(addr))]
  {
    Text("%d xrefs", [Num(count(addr))])
  }

  /** The tooltip reports the very count the pixel's grey was made from. */
  lemma TooltipMatchesPixel(buf: seq<byte>, addr: int, count: int -> nat, colors: seq<Color>, i: nat)
    requires |colors| == |buf| && i < |buf|
    requires forall j | 0 <= j < |buf| :: var v := Level(count(addr + j)); colors[j] == Rgb(v, v, v)
    ensures Tooltip(addr + i, count).args[0].Num?
    ensures colors[i].r == Level(Tooltip(addr + i, count).args[0].n)
  {
  }
}
