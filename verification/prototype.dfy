/**
 * The Prototype filter: every mapped byte is coloured by a user-written
 * Python function `process(base, offs, b, size, width, moffs)`.  Python's
 * compiler and interpreter are inputs: `compile(text)` is the function a
 * source text defines (`None` when it does not compile), and calling a
 * user function answers its colour, or `None` when the call raises.
 */
module Prototype {
  import opened Bits
  import opened Common

  type UserFunc = (int, int, int, int, int, Option<int>) -> Option<(int, int, int)>

  /** The filter's state: the function's source text and the compiled function, if any. */
  datatype State = State(funcDef: string, funcCall: Option<UserFunc>)

  /**
   * `_compile(text)`: the text is always kept; the function is replaced
   * only when the text compiles.  The flag reports success.
   */
  function Compile(s: State, text: string, compile: string -> Option<UserFunc>): (r: (State, bool))
    ensures r.0.funcDef == text
    ensures r.1 <==> compile(text).Some?
    ensures r.1 ==> r.0.funcCall == compile(text)
    ensures !r.1 ==> r.0.funcCall == s.funcCall
  {
    match compile(text)
    case Some(f) => (State(text, Some(f)), true)
    case None => (s.(funcDef := text), false)
  }

  /**
   * `_set_user_func`: ask for a new text until the user cancels or a text
   * compiles.  Every text tried becomes `funcDef`, even a rejected one.
   * `answers` are the dialog's answers in order; the loop also stops when
   * they run out.
   */
  method SetUserFunc(s: State, answers: seq<Option<string>>, compile: string -> Option<UserFunc>)
    returns (r: State, asked: nat)
    ensures asked <= |answers|
    ensures forall j | 0 <= j < asked - 1 :: answers[j].Some? && compile(answers[j].value).None?
    ensures asked < |answers| ==>
              asked > 0 && (answers[asked - 1].None? || compile(answers[asked - 1].value).Some?)
    ensures asked > 0 && answers[asked - 1].Some? ==> r.funcDef == answers[asked - 1].value
    ensures asked > 0 && answers[asked - 1].Some? && compile(answers[asked - 1].value).Some? ==>
              r.funcCall == compile(answers[asked - 1].value)
    ensures !(asked > 0 && answers[asked - 1].Some? && compile(answers[asked - 1].value).Some?) ==>
              r.funcCall == s.funcCall
    ensures asked <= 1 && !(asked == 1 && answers[0].Some?) ==> r == s
  {
    r := s;
    asked := 0;
    while asked < |answers|
      invariant asked <= |answers|
      invariant forall j | 0 <= j < asked :: answers[j].Some? && compile(answers[j].value).None?
      invariant r.funcCall == s.funcCall
      invariant asked > 0 ==> r.funcDef == answers[asked - 1].value
      invariant asked == 0 ==> r == s
    {
      var text := answers[asked];
      asked := asked + 1;
      if text.None? {
        return;
      }
      var res := Compile(r, text.value, compile);
      r := res.0;
      if res.1 {
        return;
      }
    }
  }

  /** The built-in `process`'s base colour of a byte. */
  function BaseColor(b: int): (int, int, int)
  {
    if b == 0x70 || b == 0x47 then (0x59, 0x7c, 0x92)
    else if BitAnd(Low8(b), 0xf0) == 0xe0 then (0x00, 0x40, 0x67)
    else (0x00, 0x10, 0x1b)
  }

  function MinInt(a: int, b: int): int
  {
    if a <= b then a else b
  }

  /**
   * The built-in `process`: the base colour, brightened by 4 in green and
   * blue on the cursor's column or row.  It raises (`None`) when the width
   * is zero or there is no cursor.
   */
  function DefaultProcess(base: int, offs: int, b: int, size: int, width: int, moffs: Option<int>)
    : Option<(int, int, int)>
  {
    if width == 0 || moffs.None? then None
    else
      var color := BaseColor(b);
      if PyMod(offs, width) == PyMod(moffs.value, width)
         || TruncDiv(offs, width) == TruncDiv(moffs.value, width) then
        Some((MinInt(color.0 + 0x00, 0xff), MinInt(color.1 + 0x04, 0xff), MinInt(color.2 + 0x04, 0xff)))
      else Some(color)
  }

  /**
   * The built-in function's three classes: the two thumb opcodes, bytes
   * with high nibble 0xE, everything else; on the cross-hair green and
   * blue grow by exactly 4 (the cap at 0xff is never reached).
   */
  lemma DefaultProcessClasses(offs: nat, b: byte, size: int, width: int, m: nat)
    requires width > 0
    ensures var cross := offs % width == m % width || offs / width == m / width;
            var base := if b == 0x70 || b == 0x47 then (0x59, 0x7c, 0x92)
                        else if b / 16 == 0xE then (0x00, 0x40, 0x67)
                        else (0x00, 0x10, 0x1b);
            DefaultProcess(0, offs, b, size, width, Some(m))
              == Some(if cross then (base.0, base.1 + 4, base.2 + 4) else base)
  {
    assert Pow2(4) == 16 && Pow2(8) == 256;
    AndRangeMask(b, 8, 4);
    DivModUnique(b, 256, 0, b);
    DivModUnique(b, 16, b / 16, b % 16);
  }

  function ProtoPixel(s: State, cell: Cell, addr: int, size: int, width: int, mouse: Option<int>): Pixel
  {
    if !cell.mapped then Pixel(false, None)
    else match s.funcCall
      case None => Pixel(false, None)
      case Some(f) =>
        match f(addr, cell.local, Low8(cell.value), size, width, mouse)
        case None => Pixel(false, None)
        case Some(rgb) => Pixel(true, Some(QRgb(Low8(rgb.0), Low8(rgb.1), Low8(rgb.2))))
  }

  /**
   * `on_process_buffer`: one entry per byte of all buffers, in order.  The
   * user function gets the frame address and the byte's offset in its own
   * buffer; a colour it returns is cut to eight bits per channel; a call
   * that raises (or a missing function) gives a transparent entry.
   */
  function OnProcessBuffer(s: State, runs: seq<Run>, addr: int, size: int, width: int, mouse: Option<int>)
    : (r: seq<Pixel>)
    ensures |r| == TotalLen(runs)
    ensures forall k | 0 <= k < |r| ::
              var cell := CellAt(runs, k);
              && (!cell.mapped || s.funcCall.None? ==> r[k] == Pixel(false, None))
              && (cell.mapped && s.funcCall.Some? ==>
                    match s.funcCall.value(addr, cell.local, cell.value, size, width, mouse)
                    case None => r[k] == Pixel(false, None)
                    case Some(rgb) => r[k].mapped && r[k].color.Some? && ValidColor(r[k].color.value)
                                      && r[k].color.value.r % 256 == rgb.0 % 256
                                      && r[k].color.value.g % 256 == rgb.1 % 256
                                      && r[k].color.value.b % 256 == rgb.2 % 256)
  {
    Paint(runs, (cell: Cell) => ProtoPixel(s, cell, addr, size, width, mouse))
  }
}
