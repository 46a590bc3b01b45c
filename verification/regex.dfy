/**
 * The Regex filter: bytes covered by a match of a regular expression are
 * tinted red on a dark grey ramp.  The regular-expression engine is an
 * input: `compiles` says whether `re.compile` accepts a pattern, and
 * `matches(pattern, buf)` is the set of offsets of `buf` covered by
 * `re.finditer`.
 */
module Regex {
  import opened Bits
  import opened Common

  /**
   * The filter's state: the last accepted pattern text and the compiled
   * expression, represented by the text it was compiled from.
   */
  datatype State = State(pattern: string, regex: Option<string>)

  function Initial(): State
  {
    State("", None)
  }

  type Matcher = (string, seq<byte>) -> set<int>

  /**
   * `_set_regex` (and the identical `_set_pattern` of the Pattern filter):
   * prompt until the user cancels (`None`) or enters a pattern that
   * compiles; a rejected pattern warns and asks again.  `answers` are the
   * dialog's answers in order; `asked` is how many were used.  The loop
   * also stops when the answers run out.
   */
  method SetRegex(s: State, answers: seq<Option<string>>, compiles: string -> bool)
    returns (r: State, asked: nat)
    ensures asked <= |answers|
    ensures forall j | 0 <= j < asked - 1 :: answers[j].Some? && !compiles(answers[j].value)
    ensures asked < |answers| ==> asked > 0 && (answers[asked - 1].None? || compiles(answers[asked - 1].value))
    ensures asked > 0 && answers[asked - 1].Some? && compiles(answers[asked - 1].value) ==>
              r == State(answers[asked - 1].value, Some(answers[asked - 1].value))
    ensures !(asked > 0 && answers[asked - 1].Some? && compiles(answers[asked - 1].value)) ==> r == s
  {
    r := s;
    asked := 0;
    while asked < |answers|
      invariant asked <= |answers|
      invariant forall j | 0 <= j < asked :: answers[j].Some? && !compiles(answers[j].value)
      invariant r == s
    {
      var pat := answers[asked];
      asked := asked + 1;
      if pat.None? {
        return;
      }
      if compiles(pat.value) {
        r := State(pat.value, Some(pat.value));
        return;
      }
    }
  }

  /** `c & 0x3F`: the grey level of a byte. */
  function Grey(c: byte): (v: nat)
    ensures v < 64 && v == c % 64
  {
    assert Pow2(6) == 64;
    AndLowMask(c, 6);
    BitAnd(c, 0x3F)
  }

  /**
   * The colour of a mapped byte: grey, with `0xC0` added to red when the
   * byte is covered by a match (`(r + 0xC0) & 0xFF`, which never wraps).
   */
  function Tint(c: byte, matched: bool): (col: Color)
    ensures ValidColor(col)
    ensures col.g == col.b == c % 64
    ensures col.r == if matched then c % 64 + 0xC0 else c % 64
  {
    var v := Grey(c);
    QRgb(if matched then Low8(v + (0xFF - 0x3F)) else v, v, v)
  }

  /** Whether a byte is covered by a match in its own buffer. */
  predicate Matched(s: State, cell: Cell, matches: Matcher)
  {
    s.regex.Some? && cell.local in matches(s.regex.value, cell.data)
  }

  function RegexPixel(s: State, cell: Cell, matches: Matcher): Pixel
  {
    if cell.mapped then Pixel(true, Some(Tint(cell.value, Matched(s, cell, matches))))
    else Pixel(false, None)
  }

  /**
   * `on_process_buffer`: one entry per byte of all buffers, in order.
   * Matches are searched in each mapped buffer separately and a byte is
   * tinted when its offset in its own buffer is covered; without a
   * compiled expression nothing is tinted.  Unmapped bytes are transparent.
   */
  function OnProcessBuffer(s: State, runs: seq<Run>, matches: Matcher): (r: seq<Pixel>)
    ensures |r| == TotalLen(runs)
    ensures forall k | 0 <= k < |r| ::
              var cell := CellAt(runs, k);
              && (!cell.mapped ==> r[k] == Pixel(false, None))
              && (cell.mapped ==> r[k] == Pixel(true, Some(Tint(cell.value,
                                     s.regex.Some? && cell.local in matches(s.regex.value, cell.data)))))
  {
    Paint(runs, (cell: Cell) => RegexPixel(s, cell, matches))
  }

  /** With no expression set, every mapped byte is plain grey. */
  lemma NoRegexNoTint(runs: seq<Run>, matches: Matcher, k: nat)
    requires k < TotalLen(runs) && CellAt(runs, k).mapped
    ensures var g := CellAt(runs, k).value % 64;
            OnProcessBuffer(State("", None), runs, matches)[k] == Pixel(true, Some(Rgb(g, g, g)))
  {
  }
}
