/**
 * The AutoXOR filter: the most common non-zero byte of the mapped bytes on
 * screen becomes the xor key, and bytes are drawn as `(0x20, c^key, c^key)`;
 * bytes equal to the key can blink between two colours.
 */
module AutoXor {
  import opened Common
  import Xor
  import Histogram

  type bit = x: int | 0 <= x < 2

  /**
   * The blink timer: none registered, registered, or a handle that was
   * unregistered but is still held (and so still truthy).
   */
  datatype Timer = NoTimer | Registered | Unregistered

  /** The blink period in milliseconds, what the timer callback answers. */
  const BlinkMs: int := 600

  datatype State = State(key: byte, occurence: nat, size: nat,
                         annotations: Option<seq<Annotation>>,
                         highlightKey: bool, timer: Timer, hlColorIdx: bit)

  function Initial(): State
  {
    State(0x80, 0, 0, None, true, NoTimer, 0)
  }

  /** `_enable_timer`: drop any held timer and register a fresh one. */
  function OnActivate(s: State): (r: State)
    ensures r.timer == Registered && r.(timer := s.timer) == s
  {
    s.(timer := Registered)
  }

  /** `on_deactivate`: unregister and forget the timer. */
  function OnDeactivate(s: State): (r: State)
    ensures r.timer == NoTimer && r.(timer := s.timer) == s
  {
    s.(timer := NoTimer)
  }

  /**
   * `on_mb_click` with the right button: while highlighting with a timer
   * held, the timer is unregistered (the handle is kept); otherwise a
   * timer is (re)registered.  Highlighting is toggled either way.
   */
  function OnRightClick(s: State): (r: State)
    ensures r.highlightKey == !s.highlightKey
    ensures r.highlightKey ==> r.timer == Registered
    ensures s.highlightKey && s.timer != NoTimer ==> r.timer == Unregistered
    ensures r.(highlightKey := s.highlightKey, timer := s.timer) == s
  {
    var t := if s.highlightKey && s.timer != NoTimer then Unregistered else Registered;
    s.(timer := t, highlightKey := !s.highlightKey)
  }

  /**
   * Two right clicks give the highlighting flag back; the timer then runs
   * exactly when highlighting is on.
   */
  lemma RightClickTwice(s: State)
    ensures OnRightClick(OnRightClick(s)).highlightKey == s.highlightKey
    ensures OnRightClick(OnRightClick(s)).timer == if s.highlightKey then Registered else Unregistered
  {
  }

  /** `_flip_hl_color`: the timer tick alternates the blink colour and asks to run again in 600 ms. */
  function FlipHlColor(s: State): (r: (State, int))
    ensures r.0.hlColorIdx == 1 - s.hlColorIdx && r.1 == BlinkMs
    ensures r.0.(hlColorIdx := s.hlColorIdx) == s
  {
    (s.(hlColorIdx := (s.hlColorIdx + 1) % 2), BlinkMs)
  }

  /** Two ticks give the first colour back. */
  lemma FlipTwice(s: State)
    ensures FlipHlColor(FlipHlColor(s).0).0 == s
  {
  }

  /**
   * `Counter(data).most_common(1)` over the non-zero bytes: whether there is
   * a non-zero byte at all, and if so the byte with the most occurrences,
   * their number, and the position where the byte first occurs.  Among
   * equally common bytes the one that occurs first wins, as `most_common`
   * keeps the first maximal entry in insertion order.
   */
  method MostCommon(data: seq<byte>) returns (found: bool, cur: byte, occ: nat, at: nat)
    ensures found <==> exists j | 0 <= j < |data| :: data[j] != 0
    ensures found ==> at < |data| && data[at] == cur && cur != 0
    ensures found ==> occ == multiset(data)[cur]
    ensures found ==> forall j | 0 <= j < |data| && data[j] != 0 :: multiset(data)[data[j]] <= occ
    ensures found ==> forall j | 0 <= j < at :: data[j] != cur
    ensures found ==> forall j | 0 <= j < |data| && data[j] != 0 && multiset(data)[data[j]] == occ :: at <= j
  {
    var counts := Histogram.CountBytes(data);

    // The first strictly larger count wins, so ties go to the earliest byte.
    found, cur, occ, at := false, 0, 0, 0;
    var i := 0;
    while i < |data|
      invariant 0 <= i <= |data|
      invariant found <==> exists j | 0 <= j < i :: data[j] != 0
      invariant found ==> at < i && data[at] == cur && cur != 0 && occ == counts[cur]
      invariant found ==> forall j | 0 <= j < i && data[j] != 0 :: counts[data[j]] <= occ
      invariant found ==> forall j | 0 <= j < at :: data[j] != cur
      invariant found ==> forall j | 0 <= j < i && data[j] != 0 && counts[data[j]] == occ :: at <= j
    {
      var c := data[i];
      if c != 0 && (!found || counts[c] > occ) {
        found, cur, occ, at := true, c, counts[c], i;
      }
      i := i + 1;
    }
  }

  /** The statistics lines: a title, the key, and how often it occurs among the bytes. */
  function StatsLines(key: byte, occ: nat, size: nat): (ann: seq<Annotation>)
    ensures |ann| == 3 && ann[1].text.args == [Num(key)] && ann[2].text.args == [Num(occ), Num(size)]
  {
    [Line("[Stats]", [], None),
     Line(" Key:          0x%02x", [Num(key)], None),
     Line(" Distribution: %d/%d (%.2f%%)\n", [Num(occ), Num(size)], None)]
  }

  /**
   * `_update_key`: with at least one run, `size` becomes the number of
   * mapped bytes; when some mapped byte is non-zero, the most common one
   * becomes the key, its count the occurrence, and the statistics lines
   * are rebuilt.  Otherwise the key, count and annotations stay.
   */
  method UpdateKey(s: State, runs: seq<Run>) returns (r: State, at: nat)
    ensures runs == [] ==> r == s
    ensures r.(key := s.key, occurence := s.occurence, size := s.size, annotations := s.annotations) == s
    ensures var data := MappedBytes(runs);
            var found := runs != [] && exists j | 0 <= j < |data| :: data[j] != 0;
            && (runs != [] ==> r.size == |data|)
            && (!found ==> r.key == s.key && r.occurence == s.occurence && r.annotations == s.annotations)
            && (found ==> r.key != 0 && at < |data| && data[at] == r.key
                          && r.occurence == multiset(data)[r.key] <= r.size
                          && (forall j | 0 <= j < |data| && data[j] != 0 :: multiset(data)[data[j]] <= r.occurence)
                          && (forall j | 0 <= j < at :: data[j] != r.key)
                          && (forall j | 0 <= j < |data| && data[j] != 0 && multiset(data)[data[j]] == r.occurence :: at <= j)
                          && r.annotations.Some? && |r.annotations.value| == 3)
  {
    r, at := s, 0;
    if runs == [] {
      return;
    }
    var data := MappedBytes(runs);
    r := r.(size := |data|);
    var found, cur, occ, first := MostCommon(data);
    if found {
      assert multiset(data)[cur] <= |multiset(data)|;
      r := r.(occurence := occ, annotations := Some(StatsLines(cur, occ, |data|)), key := cur);
      at := first;
    }
  }

  /**
   * The colour of a mapped byte: green and blue are the byte xored with the
   * key; a byte equal to the key, while highlighting, takes the blink
   * colour `hlColorIdx` selects.
   */
  function KeyColor(s: State, c: byte): Color
  {
    var x := Xor.Shade(s.key, c);
    if s.highlightKey && x == 0 then [QRgb(0x20, x, x), QRgb(0x7a, 0x0e, 0x7a)][s.hlColorIdx]
    else QRgb(0x20, x, x)
  }

  function AutoPixel(s: State, cell: Cell): Pixel
  {
    if cell.mapped then Pixel(true, Some(KeyColor(s, cell.value))) else Pixel(false, None)
  }

  /**
   * `on_process_buffer`: the key is updated first, then one entry per byte
   * of all buffers, in order; unmapped bytes are transparent.
   */
  method OnProcessBuffer(s: State, runs: seq<Run>) returns (r: State, colors: seq<Pixel>)
    ensures r.highlightKey == s.highlightKey && r.timer == s.timer && r.hlColorIdx == s.hlColorIdx
    ensures |colors| == TotalLen(runs)
    ensures forall k | 0 <= k < |colors| ::
              var cell := CellAt(runs, k);
              var x := Xor.Shade(r.key, cell.value);
              && (!cell.mapped ==> colors[k] == Pixel(false, None))
              && (cell.mapped && (x != 0 || !s.highlightKey) ==> colors[k] == Pixel(true, Some(Rgb(0x20, x, x))))
              && (cell.mapped && x == 0 && s.highlightKey ==>
                    colors[k] == Pixel(true, Some(if s.hlColorIdx == 0 then Rgb(0x20, 0, 0) else Rgb(0x7a, 0x0e, 0x7a))))
  {
    var at;
    r, at := UpdateKey(s, runs);
    colors := Paint(runs, (cell: Cell) => AutoPixel(r, cell));
  }

  /**
   * Exactly the bytes equal to the key blink while highlighting: a mapped
   * byte takes a blink colour iff it is the key.
   */
  lemma KeyBytesBlink(s: State, c: byte)
    requires s.highlightKey
    ensures KeyColor(s, c) == Rgb(0x20, 0, 0) || KeyColor(s, c) == Rgb(0x7a, 0x0e, 0x7a) <==> c == s.key
  {
    Xor.ShadeDecodes(s.key, c);
  }

  /**
   * `on_get_tooltip`: nothing before any mapped byte was counted; otherwise
   * the key, its count and the byte count (the percentage is not modelled).
   */
  function OnGetTooltip(s: State): (t: Option<Text>)
    ensures t.None? <==> s.size == 0
    ensures t.Some? ==> t.value.args == [Num(s.key), Num(s.occurence), Num(s.size)]
  {
    if s.size == 0 then None
    else Some(Text("Key %02Xh - %d/%d (%.2f%%)", [Num(s.key), Num(s.occurence), Num(s.size)]))
  }
}
