/**
 * The XOR filter: every byte is xored with an 8-bit key and drawn as a
 * shade of cyan; the key is picked from the graph or typed in.
 */
module Xor {
  import opened Bits
  import opened Common

  /** The filter's state: its key, 23 after `__init__`. */
  datatype State = State(key: byte)

  function Initial(): State
  {
    State(23)
  }

  /** The mouse buttons the filter reacts to. */
  datatype Button = Left | Middle | Right

  /**
   * `_set_xor_key(key)`: without an argument the key is asked for (`prompt`,
   * `None` when the dialog is cancelled).  A resolved key that is present
   * and non-zero is stored modulo 256; a zero or missing one changes nothing.
   */
  function SetXorKey(s: State, arg: Option<int>, prompt: Option<int>): (r: State)
    ensures var k := if arg.None? then prompt else arg;
            && (k.Some? && k.value != 0 ==> r.key % 256 == k.value % 256)
            && (k.None? || k.value == 0 ==> r == s)
  {
    var k := if arg.None? then prompt else arg;
    if k.Some? && k.value != 0 then State(Low8(k.value)) else s
  }

  /**
   * `on_mb_click`: the middle button asks for a key; the right button takes
   * the byte under the cursor (`cursorByte`, what `get_byte` returns).
   */
  function OnMbClick(s: State, button: Button, cursorByte: byte, prompt: Option<int>): (r: State)
    ensures button == Right && cursorByte != 0 ==> r.key == cursorByte
    ensures button == Right && cursorByte == 0 ==> r == s
    ensures button == Middle && prompt.Some? && prompt.value != 0 ==> r.key == prompt.value % 256
    ensures button == Middle && (prompt.None? || prompt.value == 0) ==> r == s
    ensures button == Left ==> r == s
  {
    match button
    case Middle => SetXorKey(s, None, prompt)
    case Right => SetXorKey(s, Some(cursorByte), prompt)
    case Left => s
  }

  /** `(ord(c) ^ key) & 0xFF`: the green and blue level of byte `c`. */
  function Shade(key: byte, c: byte): (v: byte)
  {
    XorBound(c, key, 8);
    assert Pow2(8) == 256;
    Low8(BitXor(c, key))
  }

  /**
   * The shade is the byte xored with the key and nothing else: xoring it
   * with the key again gives the byte back, and it is black exactly for
   * the byte equal to the key.
   */
  lemma {:induction false} ShadeDecodes(key: byte, c: byte)
    ensures BitXor(Shade(key, c), key) == c
    ensures Shade(key, c) == 0 <==> c == key
  {
    XorBound(c, key, 8);
    assert Pow2(8) == 256;
    assert Shade(key, c) == BitXor(c, key);
    XorSelfInverse(c, key);
    XorZero(c, key);
  }

  /** `do_filter`: one colour per byte, in order, `(0, shade, shade)`. */
  method DoFilter(s: State, buf: seq<byte>) returns (colors: seq<Color>)
    ensures |colors| == |buf|
    ensures forall i | 0 <= i < |buf| :: colors[i] == Rgb(0, Shade(s.key, buf[i]), Shade(s.key, buf[i]))
  {
    colors := [];
    var i := 0;
    while i < |buf|
      invariant 0 <= i <= |buf| && |colors| == i
      invariant forall j | 0 <= j < i :: colors[j] == Rgb(0, Shade(s.key, buf[j]), Shade(s.key, buf[j]))
    {
      var c := Shade(s.key, buf[i]);
      colors := colors + [Rgb(0, c, c)];
      i := i + 1;
    }
  }

  /**
   * Picking a non-zero byte with the right button makes every occurrence
   * of that byte black and no other byte black.
   */
  lemma PickedByteTurnsBlack(s: State, picked: byte, prompt: Option<int>, c: byte)
    requires picked != 0
    ensures Shade(OnMbClick(s, Right, picked, prompt).key, c) == 0 <==> c == picked
  {
    ShadeDecodes(picked, c);
  }
}
