# IDACyber colour filters and viewport, modelled in Dafny

IDACyber is an IDA Pro plugin that shows a stretch of the database as a
grid of coloured pixels, one pixel per byte, and lets interchangeable
colour filters decide each pixel's colour and the lines of a side panel.
This project models, as pure functions and small methods over immutable
data, the parts of that system that compute:

- `ByteSource` — how the viewer reads bytes: segment caching, Python
  slicing, the segment that holds an address and its base
  (`idacyber.py`).
- `Viewport` — the viewer's navigation state: zoom, width, offset and
  address setters, wheel and mouse-drag handling, the pixel under the
  pointer, and where `PlotBuffer` puts each pixel (`idacyber.py`).
- `Common` — the shared vocabulary: colours (`qRgb`, hex literals,
  complement), buffers as runs of mapped or unmapped bytes, the per-pixel
  result `(mapped, colour)`, side-panel annotations, and Python's `%`.
- `Bits` — Python's `&` and `^` on naturals, defined bit by bit.
- One module per colour filter under `cyber/`: `Nes`, `Xor`, `AutoXor`,
  `Heat`, `Heatmap`, `Xref`, `Ascii`, `Regex`, `Pattern`, `Prototype`,
  `Mountain`, `Crawl`, `Annotations`, `Mov`, `Vrop`, `Histogram`,
  `ItemLen`, `Dbg` and `Sms`.

Everything the plugin asks IDA, the debugger or the user is a parameter:
bytes and segment extents, item heads and sizes, decoded instructions,
cross-reference counts, function ranges, register values, stack frames,
the answers to prompts, the regular-expression matches, the user's
colour function, and Qt's floating-point `QColor.lighter`.  Mutable
filter objects become a `State` datatype that each handler takes and
returns.  The pattern filter shares the regex filter's state and its
prompt loop (`_set_pattern` in cyber/pattern.py:16-30 is the same loop as
`_set_regex`), so `Regex.SetRegex` models both.

`set_offset_delta` clamps the offset at 0 from below only, with no upper
bound at the end of the address space, and the renderer does not check
the length of a filter's output; the model does the same.

## Model

| member | source | states |
|---|---|---|
| ByteSource.InitSegment | idacyber.py:62-75 | The segment starts at the segment's start; its size is at most the segment's extent and ends within the loaded chunk; it is cached (read once) exactly when non-empty and within the threshold, and lazy with no cache otherwise |
| ByteSource.Slice | idacyber.py:78-101 | A slice of a segment holds at most `stop - start` bytes; a cached segment gives exactly the clamped slice of its cache; a segment with neither cache nor lazy reading gives the empty string |
| ByteSource.FirstContaining | idacyber.py:103-106 | The segment found is the first in list order that holds the address and is in a usable state; none is found exactly when no segment holds it |
| ByteSource.GetBase | idacyber.py:131-137 | The base of the first segment holding the address, BADADDR when no segment holds it |
| ByteSource.GetBuf | idacyber.py:119-129 | Empty when no segment holds the address; never more than `count` bytes when `count` is positive nor more than the segment's size; from a cached segment, exactly its bytes from the address onwards, cut to the requested length |
| Viewport.Initial | idacyber.py:143-160 | The fresh widget is valid, shows address 0, with zoom 5, width 32, sync and cursor on |
| Viewport.SetZoomDelta | idacyber.py:336-337 | The zoom moves by the delta, is clamped to at least 1 for any signed delta, and nothing else changes |
| Viewport.SetWidthDelta | idacyber.py:339-340 | The width moves by the delta, is clamped to at least 1 for any signed delta, and nothing else changes |
| Viewport.SetOffsetDelta | idacyber.py:342-343 | The offset becomes `offs - d`, clamped at 0 from below only, and nothing else changes |
| Viewport.SetAddr | idacyber.py:315-319 | Afterwards the shown address is exactly `ea`, even when no segment holds it and the base is BADADDR; the base is the holding segment's base |
| Viewport.ValidPreserved | idacyber.py:336-343 | Every setter keeps zoom and width at least 1 |
| Viewport.ScrollShiftsAddress | idacyber.py:330-343 | While the offset stays non-negative a scroll by `d` moves the shown address by `-d`, and two scrolls compose into one |
| Viewport.CursorAfterSetAddr | idacyber.py:330-334 | After jumping to `ea` the cursor address is `ea` plus the pointer's pixel offset |
| Viewport.OffsByPos | idacyber.py:345-349 | For a non-negative pointer position and at least one full row, the pixel lies in `[0, maxPixelsTotal)`; its column is the pointer's column capped at the last one |
| Viewport.JumpTarget | idacyber.py:231-234 | A double-click jumps to an address inside the frame shown |
| Viewport.Wheel | idacyber.py:236-258 | The wheel zooms with Control, widens with Alt, scrolls finely with Shift and by whole rows otherwise, in 120-unit notches |
| Viewport.MouseMove | idacyber.py:268-294 | With no button held the pointer's pixel is tracked; a drag zooms, widens, or scrolls by the vertical distance (whole rows unless Shift); the pointer's y is kept |
| Viewport.CentreRoundTrip | idacyber.py:192-205 | Pointing at the centre where pixel `i` is drawn selects pixel `i`: the drawing layout and the pointer mapping are inverse |
| Viewport.PlotBuffer | idacyber.py:176-205 | The frame size is width times whole rows; the bytes are fetched from the shown address; `numbytes = min(total, len(buf))`; pixel `i` is drawn at column `i % width`, row `i / width`, inverted only under the pointer with the cursor on; a short colour list stops drawing |
| Nes.ByteColor | cyber/NES.py:15-19 | Red keeps the top three bits, green gets the middle three bits at its top, blue the low two bits at its top |
| Nes.MaskFields | cyber/NES.py:16-18 | The masks `& 0xE0`, `<< 3 & 0xE0`, `<< 6 & 0xC0` cut out exactly the RRR, GGG and BB fields |
| Nes.DecodeByteColor | cyber/NES.py:9-19 | Reading the fields back gives the byte, so distinct bytes give distinct colours; the low 5 bits of red and green and the low 6 of blue are clear |
| Nes.RenderImg | cyber/NES.py:8-23 | One entry per byte of all buffers, in order; mapped bytes get their field colour, unmapped bytes `(False, 0)` |
| Xor.SetXorKey | cyber/xor.py:13-17 | Without an argument the prompt's answer is used; a present non-zero key is stored `& 0xFF`, in `[0, 255]`; a zero or missing key changes nothing |
| Xor.OnMbClick | cyber/xor.py:22-27 | The right button takes the byte under the cursor as key (unless it is 0); the middle button prompts; other buttons change nothing |
| Xor.ShadeDecodes | cyber/xor.py:31-33 | Xoring the shade with the key gives the byte back, and the shade is black exactly for the byte equal to the key |
| Xor.DoFilter | cyber/xor.py:29-34 | One colour per byte, in order: `(0, c ^ key, c ^ key)` |
| Xor.PickedByteTurnsBlack | cyber/xor.py:22-33 | After picking a non-zero byte with the right button, exactly that byte value is drawn black |
| Heat.DoFilter | cyber/heat.py:14-19 | One colour per byte, in order; red is the byte value, green and blue are 0 |
| Heatmap.Hm | cyber/heatmap.py:21-26 | Every channel is in `[0, 255]`, the channels sum to 255, and red and blue are never both non-zero |
| Heatmap.HmBands | cyber/heatmap.py:21-26 | Integer division makes three bands: below 128 blue, 128 to 254 green, only 255 red (0 gives `(0, 0, 255)`, 255 gives `(255, 0, 0)`) |
| Heatmap.DoFilter | cyber/heatmap.py:8-14 | One colour per byte, in order, from the gradient |
| Xref.LevelWraps | cyber/xref.py:22 | The grey level is 16 times the count modulo 16; 16 references or any multiple of 16 give black |
| Xref.DoFilter | cyber/xref.py:18-24 | One grey per byte, in order, from the reference count at its address, `r = g = b` |
| Xref.Tooltip | cyber/xref.py:27-28 | The tooltip reports the reference count of the address |
| Xref.TooltipMatchesPixel | cyber/xref.py:18-28 | The tooltip's count is the one the pixel's grey was made from |
| AutoXor.OnActivate | cyber/autoxor.py:27-29 | Activation registers the blink timer and changes nothing else |
| AutoXor.OnDeactivate | cyber/autoxor.py:31-35 | Deactivation drops the timer and changes nothing else |
| AutoXor.OnRightClick | cyber/autoxor.py:37-45 | The right button toggles key highlighting; turning it on registers the timer, turning it off with a timer unregisters it; nothing else changes |
| AutoXor.RightClickTwice | cyber/autoxor.py:37-45 | Two right clicks restore the highlighting flag and leave a live timer exactly when highlighting was on |
| AutoXor.FlipHlColor | cyber/autoxor.py:56-60 | Each tick flips the blink index between 0 and 1 and asks for the next tick in 600 ms |
| AutoXor.FlipTwice | cyber/autoxor.py:56-60 | Two ticks restore the state |
| AutoXor.MostCommon | cyber/autoxor.py:68-71 | A byte is found exactly when some byte is non-zero; it is non-zero, occurs `occ` times, and no non-zero byte occurs more often; among the most frequent it is the one seen first |
| AutoXor.UpdateKey | cyber/autoxor.py:62-81 | With buffers, `size` is the number of mapped bytes; with a non-zero mapped byte the key becomes a most frequent non-zero byte and `occurence <= size`; with none, or no buffers, key, count and statistics lines stay |
| AutoXor.OnProcessBuffer | cyber/autoxor.py:83-96 | After the key update, one entry per byte of all buffers, in order: unmapped `(False, None)`, mapped `qRgb(0x20, c^key, c^key)`, or the blink colour chosen by the index for a byte that xors to 0 while highlighting |
| AutoXor.KeyBytesBlink | cyber/autoxor.py:88-93 | While highlighting, a byte takes a blink colour exactly when it equals the key |
| AutoXor.OnGetTooltip | cyber/autoxor.py:98-102 | No tooltip while no mapped byte was counted; otherwise the key, its count and the byte count |
| Ascii.SetThreshold | cyber/ascii.py:13-16 | The threshold becomes the answer, and stays when the prompt is cancelled |
| Ascii.ScanStretches | cyber/ascii.py:31-45 | The recorded runs are exactly the printable runs that a non-printable byte of the same buffer ends and that are at least the threshold long, each with its length |
| Ascii.Colorize | cyber/ascii.py:47-58 | Every byte gets the background `(0x10, 0x10, 0x10)` unless a recorded run covers it, which gives it the highlight colour |
| Ascii.RenderBuffer | cyber/ascii.py:29-60 | The colours of one buffer equal the reference: highlighted exactly the bytes of recorded runs |
| Ascii.HighlightBright | cyber/ascii.py:50-58 | A highlighted byte's red is `c + 0x81`, in `[0xA1, 0xFF]`, and its blue is 0 |
| Ascii.TailNotHighlighted | cyber/ascii.py:35-45 | A printable run that reaches the end of its buffer is never highlighted |
| Ascii.RenderRun | cyber/ascii.py:25-63 | One entry per byte of a run, its tracking state fresh for each buffer |
| Ascii.RenderImg | cyber/ascii.py:22-65 | One entry per byte of all buffers, in order; unmapped `(False, 0)`, mapped bytes highlighted per their own buffer |
| Regex.SetRegex | cyber/regex.py:17-32 | The prompt repeats exactly while the answers are patterns that do not compile; a compiling pattern replaces both pattern and expression; a cancel keeps both |
| Regex.Grey | cyber/regex.py:51 | The grey level `c & 0x3F` is below 64 |
| Regex.Tint | cyber/regex.py:51-53 | Green and blue are `c & 0x3F`; red is the same, plus `0xC0` when matched, which never wraps past `0xFF` |
| Regex.OnProcessBuffer | cyber/regex.py:39-59 | One entry per byte of all buffers, in order; unmapped `(False, None)`; a mapped byte is tinted exactly when its offset in its own buffer is covered by a match, and never without an expression |
| Regex.NoRegexNoTint | cyber/regex.py:46-54 | Without an expression every mapped byte is plain grey |
| Pattern.RenderImg | cyber/pattern.py:36-56 | One entry per byte of all buffers, in order; unmapped `(False, 0)`; matches per buffer as in the Regex filter |
| Pattern.AgreesWithRegex | cyber/pattern.py:36-56 | The two filters agree on every mapped byte and differ only on unmapped ones |
| Prototype.Compile | cyber/prototype.py:40-48 | The text is always stored; the function is replaced exactly when the text compiles, and the flag reports that |
| Prototype.SetUserFunc | cyber/prototype.py:50-58 | The prompt repeats exactly while the texts do not compile; the last text tried is stored even when rejected; the function changes only on a successful compile; an immediate cancel changes nothing |
| Prototype.DefaultProcessClasses | cyber/prototype.py:17-36 | The built-in function gives `(0x59, 0x7c, 0x92)` for 0x70 and 0x47, `(0x00, 0x40, 0x67)` for a high nibble 0xE, `(0x00, 0x10, 0x1b)` otherwise, and on the cursor's row or column green and blue grow by exactly 4 |
| Prototype.OnProcessBuffer | cyber/prototype.py:64-84 | One entry per byte of all buffers, in order; the user function gets the byte's offset in its own buffer; its colour is cut to 8 bits per channel; a raising call gives `(False, None)` |
| Mountain.OnProcessBuffer | cyber/mountain.py:17-37 | One entry per byte of all buffers, in order; unmapped `(False, None)`; a byte inside a function is `(0, c, c)`, else in a string literal `(0, c, 0)`, else `(c, c, c)` |
| Crawl.OnMbClick | cyber/crawl.py:20-25 | The right button flips the mode between 0 and 1; other buttons change nothing |
| Crawl.ToggleTwice | cyber/crawl.py:23-24 | Two right clicks give the mode back |
| Crawl.RenderImg | cyber/crawl.py:38-72 | One entry per byte of all buffers, in order; unmapped `(False, 0)`; a mapped byte is `(c, 0xFF, 100)` exactly when there is a cursor and its address lies in the item's or function's range, otherwise `(c, 0, 0)` |
| Crawl.NoFunctionNoHighlight | cyber/crawl.py:40-54 | In function mode with no function under the cursor, the range stays BADADDR and nothing is highlighted |
| Annotations.RenderImg | cyber/annotations.py:15-44 | With a cursor, one entry per byte of all buffers: bytes in the item under the cursor are orange, also when unmapped; other mapped bytes take `colormap[c / 63]`; other unmapped bytes are transparent; without a cursor a non-empty frame raises |
| Annotations.GetAnnotations | cyber/annotations.py:46-51 | Without a cursor the address sum raises and nothing is produced; with one, exactly four lines in the lightest palette colour giving the cursor address, the byte there, the size and the name of its item; only the first has a target, the cursor address |
| Mov.Ins2Color | cyber/mov.py:29-49 | A `mov` of non-zero length is a write (access 1, red) exactly when its first operand is a memory operand, otherwise a read (access 0, green) exactly when its second one is; everything else has access -1 and colour 0; the length is the decoded instruction's length |
| Mov.HitAtIsLoopTest | cyber/mov.py:88-89 | The scan treats an address as a hit exactly when `_ins2color` reports an access other than -1, a non-zero colour and a non-zero length; the hit then carries that access (1 is a write, 0 a read) and that length |
| Mov.ScanBuffer | cyber/mov.py:84-99 | One entry per byte of the buffer; the recorded instructions are numbered consecutively, lie in the buffer, are hits, and do not overlap; every byte inside a recorded instruction's span has that instruction's access colour, every byte outside all spans has its palette colour and is not the start of a hit |
| Mov.OnProcessBuffer | cyber/mov.py:77-106 | One entry per byte of all buffers; unmapped bytes transparent; the recorded instructions are numbered from 0 in ascending address order, at mapped hits of the frame; each mapped byte obeys the scan's colouring rule within its buffer |
| Mov.GetSelectionOffs | cyber/mov.py:51-56 | The window start never passes the middle recorded instruction; it is 0 while the middle one falls in the first half window (`ann_cnt/2 <= threshold/2`), and otherwise exactly half a window (`threshold/2`, 4) before the middle one |
| Mov.OnGetAnnotations | cyber/mov.py:58-74 | The caption, then the recorded instructions from the window start on, each pointing at its address, at most ten of them; when the window is full a last line counts those not listed |
| Histogram.Bar | cyber/histogram.py:60 | The bar height is `count / max * height` rounded to the nearest integer, halves up, stated as a two-sided bound on `2 * max * b` |
| Histogram.BarBounds | cyber/histogram.py:56-60 | No bar is taller than the chart, the largest count fills it and a zero count draws nothing |
| Histogram.BarIndex | cyber/histogram.py:62-65 | The index written for cell `y` of column `i` lies inside the chart, in column `i`, at row `height - 1 - y` |
| Histogram.CountBytes | cyber/histogram.py:46-51 | `hist[v]` is the number of occurrences of `v` in the bytes, and the counts add up to the number of bytes |
| Histogram.MaxOf | cyber/histogram.py:53 | The result bounds every count and is one of them |
| Histogram.DrawColumn | cyber/histogram.py:62-65 | After the inner loop column `i`'s bar cells are drawn in its colour, the columns before it are kept, and nothing else changes |
| Histogram.DrawBars | cyber/histogram.py:39-65 | One entry per frame pixel; a pixel is a bar cell in the column's colour exactly when it lies within the column's bar measured from the bottom row, otherwise backdrop |
| Histogram.OnProcessBuffer | cyber/histogram.py:38-74 | The histogram counts exactly the mapped bytes and its maximum is attained; without a cursor `mouse_offs % width` raises after these are stored, so no colours are produced and the side panel is kept; with one, the chart follows the bar rule with the cursor's column `mouse % 256` highlighted, and six side-panel lines are produced, the second giving the end address and the last the cursor column's count |
| Histogram.TallestBarFullHeight | cyber/histogram.py:56-65 | The most common byte value's bar fills its column on every row |
| Histogram.AbsentValueNoBar | cyber/histogram.py:56-65 | A byte value that does not occur has no bar cell on any row |
| Histogram.OnGetTooltip | cyber/histogram.py:76-80 | The tooltip names the column `mouse % 256` (Python modulo) and its count; it is absent exactly when there is no cursor (the modulo raises) or the histogram has no such column yet |
| Vrop.OnProcessBuffer | cyber/vrop.py:32-57 | One entry per byte of all buffers; unmapped bytes transparent; `ret_locs` holds exactly the addresses of mapped return instructions, ascending; a return is drawn in the complement of its palette colour, lightened for the first ten, other mapped bytes in the palette colour |
| Vrop.LateReturnStandsOut | cyber/vrop.py:41-46 | From the eleventh return on, the colour is the plain complement: complementing gives the palette colour back, and it differs from every palette colour |
| Vrop.OnGetAnnotations | cyber/vrop.py:59-68 | The caption, then one line per return pointing at its address, at most ten; with ten or more a final line counts the rest, so exactly ten returns end with a count of 0 |
| ItemLen.StripesAt | cyber/itemlen.py:9-32 | Entry `i` of stripe `j` of the picture has stripe `j`'s alternating colour: the stripes lie side by side in order |
| ItemLen.DoFilter | cyber/itemlen.py:9-32 | The stripes recorded start at `addr` with the first item's size less the part before `addr`, each next one where the previous advanced to with that address's item size; every stripe starts before the end and the last advances past it; the colours are exactly the stripes, covering at least the whole buffer |
| Dbg.AddHit | cyber/dbg.py:29-39 | A new address gets count 1 and its item size; a known one counts up while its count is at most 100, keeping its size; no other address changes |
| Dbg.AddHitKeepsBounds | cyber/dbg.py:29-39 | Counts stay within `1..101` and sizes at least one |
| Dbg.RepeatedHits | cyber/dbg.py:29-39 | `n` hits at a new address leave its count at `min(n, 101)` with the size seen first |
| Dbg.EnableTimer | cyber/dbg.py:20-22 | A timer is registered and nothing else changes |
| Dbg.DisableTimer | cyber/dbg.py:24-27 | No timer is registered and nothing else changes |
| Dbg.SetPw | cyber/dbg.py:41-44 | The view is attached and a timer runs; the hits are kept |
| Dbg.OnSuspend | cyber/dbg.py:93-97 | The timer runs and the current instruction pointer is counted as by `add_hit` |
| Dbg.FlashCb | cyber/dbg.py:46-52 | The callback always answers 200 ms; the flash flag flips exactly when a view is attached |
| Dbg.FlashTwice | cyber/dbg.py:46-52 | Two ticks give the flash flag back |
| Dbg.OnMbClick | cyber/dbg.py:142-147 | A right click answered "yes" clears the hits; anything else leaves the hook unchanged |
| Dbg.ByteToColorIdx | cyber/dbg.py:149-150 | The palette index is `c / 63`, always within the five-entry palette |
| Dbg.GetAnnotations | cyber/dbg.py:152-159 | Two lines pointing at the instruction pointer (red) and the stack pointer (green) when both are known, none otherwise |
| Dbg.RenderImg | cyber/dbg.py:161-198 | One piece per buffer, concatenated in order; an unmapped buffer is transparent byte for byte; a mapped one follows the scan rule (flash colour over the current instruction while flashing, hit colour over a visited item's recorded size, palette colour otherwise); the output covers at least every byte |
| Sms.ParseShow | cyber/sms.py:18-21 | Parsing the decimal digits of `n` gives `n` back |
| Sms.SplitJoin | cyber/sms.py:18-21 | Splitting at the first separator takes off exactly the text before it |
| Sms.GetIdaVersion | cyber/sms.py:18-21 | A version is read exactly when the string is two non-empty digit pieces around one dot, and then it is the two pieces' decimal values, leading zeros included |
| Sms.JoinSplit | cyber/sms.py:19 | `split` loses nothing: joining the pieces with the separator gives the string back |
| Sms.VersionRoundTrip | cyber/sms.py:18-21 | Reading back `"major.minor"` gives `(major, minor)` |
| Sms.IsIda70 | cyber/sms.py:24-26 | The test fails to answer exactly when the version cannot be read |
| Sms.Ida70Exactly | cyber/sms.py:24-26 | A version string of two digit pieces counts as IDA 7.0 exactly when its pieces read as 7 and 0, so padded forms such as `"07.00"` count too |
| Sms.Ida70Padded | cyber/sms.py:18-26 | `"07.00"` counts as IDA 7.0, and `"7.1"` does not |
| Sms.SpRegName | cyber/sms.py:28-44 | A stack register is named exactly for the metapc and arm processors |
| Sms.IpRegName | cyber/sms.py:46-62 | An instruction register is named exactly for the metapc and arm processors, and it differs from the stack register |
| Sms.Put | cyber/sms.py:88-94 | Storing a member keeps keys unique, holds the new entry, keeps every other key's entry and adds nothing else |
| Sms.GetFrame | cyber/sms.py:74-96 | Without truthy stack and instruction pointers, a function and a frame the result is empty; otherwise the frame address is `sp - spd - (frregs + frsize)`, the size is the frame's, and keys are unique |
| Sms.MembersKeyed | cyber/sms.py:88-94 | Every present frame member is stored under its absolute address, and every stored entry comes from a frame member |
| Sms.FrameWellKeyed | cyber/sms.py:74-96 | Every member of the frame read is stored under its absolute address, with unique keys |
| Sms.GetElementBoundaries | cyber/sms.py:98-103 | The answer is absent exactly when no member spans the address; otherwise it is a member's `(start, start + size)` span holding the address |
| Sms.BoundariesOfDisjoint | cyber/sms.py:98-103 | With non-overlapping members the answer is the one member holding the address, whatever the iteration order |
| Sms.Lookup | cyber/sms.py:216-219 | A member is found exactly when its key is stored, and it is the stored one |
| Sms.Initial | cyber/sms.py:159-177 | The initial palette index is -1, giving the last palette |
| Sms.OnMbClick | cyber/sms.py:179-186 | The middle button moves to the next palette modulo 11; the right button toggles the stack-pointer arrow; other buttons change nothing; the palette always matches the index |
| Sms.ClicksAdvance | cyber/sms.py:179-183 | `n` middle clicks advance the palette index by `n` modulo 11 |
| Sms.PalettesCycle | cyber/sms.py:179-183 | Every multiple of eleven middle clicks gives the same palette back |
| Sms.OnActivate | cyber/sms.py:189-193 | A hook is installed, highlighting with its timer on; nothing else changes |
| Sms.OnDeactivate | cyber/sms.py:195-200 | The hook is removed; nothing else changes |
| Sms.FlashCb | cyber/sms.py:124-130 | Always 300 ms; the highlight flips exactly when a view is attached, the debugger is on and the process is suspended |
| Sms.SpLines | cyber/sms.py:216-220 | One "points to" line exactly when a member spans the stack pointer, none otherwise, never with a target |
| Sms.MemberLines | cyber/sms.py:228-251 | Eight lines exactly when a member spans the cursor address, none otherwise, never with a target |
| Sms.MemberCursor | cyber/sms.py:228-251 | The member lines name the member under the cursor and give the cursor's offset inside it, which lies within the member's size |
| Sms.OnGetAnnotations | cyber/sms.py:202-258 | Without truthy stack and instruction pointers one "Debugger inactive" line; otherwise the stack-pointer block (arrow only when enabled), the function block and the member block when the cursor lies in a member, only the arrow line pointing anywhere |
| Common.InvertInvolution | idacyber.py:200-201 | Inverting a colour twice gives it back |
| Common.PaletteIndexBands | cyber/annotations.py:32 | The palette index `c / 63` lies in `0..4` and is monotone in the byte value |

## Left out

- Qt painting, widgets, layouts, signals and key/mouse event dispatch: GUI plumbing; only the arithmetic the handlers perform is modelled (`Viewport.Wheel`, `Viewport.MouseMove`, `Viewport.PlotBuffer`).
- Plugin discovery (`os.listdir`, `__import__`), plugin registration and the screen-address hook: loader glue with no logic of its own.
- IDA and debugger queries (`get_many_bytes`, item heads and sizes, `get_func`, `decode_insn`, cross references, register values, `get_frame`): these are parameters of the model, not modelled.
- Timers and debugger-hook registration: only the state toggles the callbacks perform are modelled (`Dbg.FlashCb`, `Sms.FlashCb`, `Dbg.EnableTimer`); the event loop is not.
- Floating-point colour arithmetic: `QColor.lighter` (vrop, dbg) is an input function; the GameBoy filter's grey weighting, the xrefsto filter's heat map and the histogram entropy are not modelled.
- `cyber/GameBoy.py`, `cyber/xrefsto.py` and `cyber/expr.py`: their logic is floating-point colour math or a call into Python's `eval`; they are not part of this model.
- The regular-expression engine and user-code compilation: the match set and the compiled colour function are inputs (`Regex`, `Pattern`, `Prototype`).
- `on_process_buffer` of the stack filter (cyber/sms.py:260-322) is not modelled: it draws from live register and frame reads and, like `render_img` in dbg, makes no length promise.
- Histogram.Bar: computed exactly on rationals (round half up, as Python 2 rounds positive halves); the rounding error of the float division is not modelled.
- Histogram.OnProcessBuffer: the entropy line's value is not stated.
- Dbg.RenderImg: no length equality with the buffers is stated, because the code draws whole items and can overshoot a buffer's end; item sizes must be at least one, because a zero size would loop forever in the code.
- ItemLen.DoFilter: no length equality is stated, for the same reason: the last stripe can run past the buffer's end.
- Regex.SetRegex: the re-prompt loop is modelled over a finite list of answers and stops when the list ends.
- Prototype.SetUserFunc: the re-prompt loop is modelled over a finite list of answers and stops when the list ends.
- Sms.GetIdaVersion: accepts only plain decimal digit strings; Python's `int()` also accepts signs and surrounding blanks.
- Sms.GetFrame: Python 2 dictionary iteration order is modelled as insertion order; `Sms.BoundariesOfDisjoint` shows the answer does not depend on it when members do not overlap.
- Common.Invert: Python's `~col.rgb()` (idacyber.py:201) and `~(... & 0xFFFFFF)` (cyber/vrop.py:44) give a negative integer; the model takes it as the 24-bit complement of each channel, which assumes Qt keeps only the low 24 colour bits of the value it is handed (its 32-bit unsigned reading of the negative number). The same holds for `Vrop.RetColor`, which is built on it.
- Heat: `on_activate` and `on_right_click` only print, and `get_tooltip` only formats a byte read from the database; none of them is modelled.
