# Orbital, modelled in Dafny

Orbital is the display server of Redox. Clients open windows through the
`orbital:` scheme. They send text commands to it and read events back. The
server keeps every window's place, flags and event queue. It decides which
window has focus and in what order windows are stacked. It records the screen
areas that need repainting and composes the windows' pixel buffers onto the
displays. This project models that bookkeeping and proves properties of it.

The modules follow the source files:

- `Helpers` holds Option/Result, Rust's truncating `/` and `%`, and sequence
  helpers.
- `Rects` defines the rectangle type. `src/core/rect.rs` is not part of this
  model, so `Rect` is defined here with the operations the server uses:
  `container`, `intersection`, `area`, `contains`, `is_empty` and `offset`.
  `contains` includes both edges.
- `Displays` models a display only by its place, its size and its scale.
- `Damage` is the redraw coalescer `schedule`. `src/scheme.rs` and
  `src/compositor.rs` share it.
- `ZSort` and `WindowOrdering` cover `src/window_order.rs`: the focus deque and
  the z-buffer, sorted stably by z-order. `WindowOrder` is a class whose
  methods update its deque in place.
- `Events` and `WindowModel` cover `src/window.rs`: the window's geometry and
  hit zones, its coalescing event queue, its flags and their string form, and
  the resize that keeps the overlapping pixels.
- `Pixels`, `CoreImage` and `LegacyImage` cover `src/core/image.rs` and
  `src/image.rs`. They include the region-of-interest row iterators, `blend`,
  `blit` and `set` on arrays, the image constructors, the up-scaling loop and
  the page-aligned buffer.
- `Text` and `Utf8` hold splitting, trimming, line splitting, integer parsing
  and formatting, and UTF-8 decoding. The protocol and config parsers are
  written with them.
- `Protocol` covers `src/core/mod.rs`: `url_parts`, `parse_display_path`, the
  `open` path grammar, the `write` command grammar, clipboard handle tagging,
  `fpath`, `mmap_prep`, and the `todo` retry loop.
  `LegacyProtocol` covers the older grammar in `orbital-core/src/lib.rs`. The
  `todo` loop there (`orbital-core/src/lib.rs:266-280`) is the same loop as in
  `src/core/mod.rs`, so `Protocol.Orbital.RetryTodo` models both.
- `Configuration` is the `key=value` parser of `src/config.rs`.
- `Scheme`, `SchemeState` and `SchemeHandlers` cover `src/scheme.rs` on values.
  The state is a `Desk` record holding the scheme's fields. Each handler is a
  function from the old state to the new state and its answer:
  - window creation: id allocation with `isize` wrap-around, placement, and
    the flag characters;
  - every `handle_window_*` lookup, with EBADF for an unknown id;
  - close;
  - the clipboard seek, truncate and copy;
  - Win+Tab;
  - the focus reorder on click, and the drag modes;
  - the arrow-key grid moves;
  - the relative-motion clamp;
  - the volume arithmetic.

  `src/scheme.rs` comes from an older generation than `src/window.rs`, so it
  is modelled against its own window record (`SchemeWindow`), which holds only
  the fields it reads.
- `SchemeServer` is the `OrbitalScheme` object. Its methods change its fields
  in place. Each is proved to leave the object in the state the matching
  handler function computes.
- `Compositing` is the compositor's redraw list, its popup and its software
  cursor.
- `TileTree` and `TileExample` cover the tiling example in
  `orbital-tile/examples/example.rs`. `TileTree` has reference functions and
  lemmas on a tiling value. `TileExample` is the `Example` object, whose
  methods update its maps in place. Tiling is sound when window and fork ids
  are fresh, the top fork is present, and the fork links are acyclic. The
  acyclicity is shown by a ghost ranking of the forks, which also gives the
  `close_focused` worklist its termination measure.

Two behaviours of `src/scheme.rs` are modelled as written:
- `handle_clipboard_read` copies from the start of the clipboard rather than
  from the window's seek position. It still moves the position on.
- `handle_window_unmap` adds one to the mapping count instead of taking one
  off.

`SchemeHandlers.ClipboardReadBy`, `SchemeHandlers.Unmapped` and
`SchemeHandlers.MapUnmapCounts` state these behaviours.

## Model

| member | source | states |
|---|---|---|
| WindowOrdering.Tagged | src/window_order.rs:53-55 | entry `i` of the unsorted z-buffer is the `i`-th id of the focus order, its z-order, and the focused flag exactly when `i == 0` |
| WindowOrdering.MadeFocused | src/window_order.rs:38-42 | reference definition of `make_focused` (no contract of its own): the first occurrence of `id` is taken out and put in front; `WindowOrdering.MadeFocusedSpec` and `WindowOrdering.MadeFocusedUnique` state what it yields |
| WindowOrdering.MadeFocusedSpec | src/window_order.rs:38-42 | `make_focused` puts `id` first, keeps length and multiset, and the rest is the old order with one `id` taken out, in order |
| WindowOrdering.MadeFocusedUnique | src/window_order.rs:38-42 | with unique ids, `make_focused` yields `id` followed by every other id in the old order |
| WindowOrdering.RemoveOnly | src/window_order.rs:34-40 | with unique ids, removing by index (`remove(index)`) is the same as `retain(|e| e != id)` |
| WindowOrdering.MovedAfter | src/window_order.rs:44-48 | reference definition of `move_focused_after` (no contract of its own): the front entry is popped and reinserted at the old index of `id`; `WindowOrdering.MovedAfterSpec` states what it yields |
| WindowOrdering.MovedAfterSpec | src/window_order.rs:44-48 | `move_focused_after` keeps the multiset; the front id lands at the old index of `id`, the ids before it move up by one and the ones after stay; with `id` at the front nothing changes |
| WindowOrdering.TaggedFlags | src/window_order.rs:53-55 | before sorting, exactly one entry is marked focused: the one for the front of the focus order |
| WindowOrdering.TaggedIds | src/window_order.rs:53-55 | the ids of the unsorted z-buffer are the focus order itself |
| WindowOrdering.ZBufferIds | src/window_order.rs:50-58 | the z-buffer holds exactly the ids of the focus order, as a multiset |
| WindowOrdering.ZBufferFocus | src/window_order.rs:50-58 | after sorting, the focused entry still occurs once and no other entry is marked focused |
| WindowOrdering.ZBufferSpec | src/window_order.rs:50-58 | `rezbuffer` leaves a z-buffer sorted Front before Normal before Back, a permutation of the focus order's entries that keeps the focus order within each z-level (the sort is stable) |
| WindowOrdering.WindowOrder.constructor | src/window_order.rs:16-21 | both the focus order and the z-buffer start empty |
| WindowOrdering.WindowOrder.AddWindow | src/window_order.rs:23-32 | Front and Normal windows are pushed on the front of the focus order, Back windows on the back |
| WindowOrdering.WindowOrder.RemoveWindow | src/window_order.rs:34-36 | every occurrence of the id leaves the focus order; the rest keep their order |
| WindowOrdering.WindowOrder.MakeFocused | src/window_order.rs:38-42 | the focus order becomes `MadeFocused`, whose properties `MadeFocusedSpec` states; the id must be present, as the source unwraps the lookup |
| WindowOrdering.WindowOrder.MoveFocusedAfter | src/window_order.rs:44-48 | the focus order becomes `MovedAfter`, whose properties `MovedAfterSpec` states |
| WindowOrdering.WindowOrder.Rezbuffer | src/window_order.rs:50-58 | the loop and the sort leave the z-buffer `ZBufferOf(focus order)`, whose properties `ZBufferSpec` states |
| WindowOrdering.WindowOrder.Focused | src/window_order.rs:60-62 | there is a focused id exactly when the focus order is non-empty, and it is the front one |
| WindowOrdering.WindowOrder.IterFocusOrder | src/window_order.rs:64-66 | the ids in focus order, the focused one first, each as often as it is in the deque |
| WindowOrdering.WindowOrder.IterFrontToBack | src/window_order.rs:68-70 | the ids of the z-buffer, front to back, one per entry |
| WindowOrdering.WindowOrder.IterBackToFront | src/window_order.rs:72-77 | the z-buffer's `(id, focused)` pairs in reverse order |
| ZSort.SortDescSpec | src/window_order.rs:57 | the sort by descending z-order (`b.1.cmp(&a.1)`, with `Back < Normal < Front` as declared at lines 3-8) returns a permutation that is sorted and stable: within each level the input order is kept |
| ZSort.SortDescIsStacked | src/window_order.rs:57 | the insertion sort equals the reference ordering "all Front entries, then Normal, then Back, each in input order" |
| ZSort.StackedSpec | src/window_order.rs:57 | the reference ordering is sorted, a permutation of the input, and keeps each level's input order |
| ZSort.InsertStacked | src/window_order.rs:57 | inserting one more entry into a stacked sequence gives the stacked sequence of the longer input (the inductive step of the stable sort) |
| Damage.Scheduled | src/scheme.rs:37-51 | reference definition of `schedule` (no contract of its own): the first rectangle that absorbs the request becomes their container, otherwise the request is appended; `Damage.ScheduledMerges`, `Damage.ScheduledAppends`, `Damage.ScheduledCovers` and `Damage.ScheduledKeeps` state what it yields, and the loop `Damage.Schedule` is proved equal to it |
| Damage.Schedule | src/scheme.rs:37-51 | the loop returns `Scheduled`: the request is merged into the first pending rect that absorbs it, else appended (the same algorithm as `Compositor::schedule`, src/compositor.rs:94-109) |
| Damage.ScheduledMerges | src/scheme.rs:39-45 | when rect `k` is the first whose container with the request is no larger than the two areas together, exactly that rect becomes the container and nothing else changes |
| Damage.ScheduledAppends | src/scheme.rs:48-50 | when no pending rect absorbs the request, it is appended at the end |
| Damage.ScheduledCovers | src/scheme.rs:37-51 | the list grows by at most one, some rect afterwards contains the request, and every old rect is contained in the rect at its index |
| Damage.ScheduledKeeps | src/scheme.rs:37-51 | the request is covered, any region covered before stays covered, and the list grows by at most one |
| Rects.NowhereHitsNothing | src/window.rs:138-144 | the `Rect::new(-1, -1, 0, 0)` stand-in used for absent borders contains no point with a non-negative coordinate |
| Events.Coalesced | src/window.rs:329-355 | reference definition of `Window::event` on the queue (no contract of its own): a replacing event overwrites a last event of its code, a delta event is summed into it, anything else is appended; `Events.CoalescedSpec` states what it yields |
| Events.CoalescedSpec | src/window.rs:329-355 | an event that is not merged is appended to the untouched queue; a repeated mouse, move, resize or screen event replaces the last one and a repeated relative-mouse or scroll event is summed into it, both keeping the length, the summed entry holding the old payload words plus the new; the earlier events stay as they were; per code the totals of summed events and the counts of other events grow by exactly the new event; a compact queue stays compact |
| Rects.Offset | src/scheme.rs:500 | an offset rect keeps its size and moves by the offset |
| Rects.Container | src/scheme.rs:41 | the container holds both rects and lies inside every rect that holds both, so it is the least such rect |
| Rects.Intersection | src/scheme.rs:473 | the intersection starts at the larger of the two origins, is no larger than either rect, lies inside both when it is not empty, and contains every point both contain |
| WindowModel.FlagString | src/window.rs:372-400 | reference definition of the flags string of `properties` (no contract of its own): one character per flag that holds, in the source's order; `WindowModel.FlagStringSpec` and `WindowModel.Window.Properties` state what it yields |
| WindowModel.FlagStringSpec | src/window.rs:372-400 | the properties flag string holds each flag character exactly when its flag is set ('m' when a restore rect is kept, 'M' also when that is full screen, 'b'/'f' for the non-Normal levels), in the fixed order `a l h m M r t u b f`, each at most once |
| WindowModel.WithFlag | src/window.rs:441-467 | reference definition of `set_flag` on the flag fields (no contract of its own): the field the character names takes the value, 'b' and 'f' set the level; `WindowModel.WithFlagCases` and `WindowModel.WithFlagSpec` state what it yields |
| WindowModel.WithFlagCases | src/window.rs:441-467 | `set_flag` with a known character updates exactly its field ('b' and 'f' the z-order, Normal when cleared); any other character changes nothing |
| WindowModel.WithFlagSpec | src/window.rs:441-467 | `set_flag` leaves every field but the named one, the restore state included, unchanged; 'b'/'f' give their level exactly when set and Normal otherwise |
| WindowModel.AppliedFields | src/window.rs:441-467 | setting the characters of a string one by one marks each boolean flag whose character occurs and leaves the rest; the z-order follows 'b' or 'f' when only one of them occurs |
| WindowModel.PropertiesRoundTrip | src/window.rs:372-400 | reading the properties flag string back with `set_flag(c, true)` on a fresh window restores every flag (the partner of `properties`) |
| WindowModel.Window.constructor | src/window.rs:74-102 | a new window has the given position and scale, an empty title, every flag cleared, Normal level, no restore rect, a `w`×`h` page-aligned image, an empty event queue and no mappings |
| WindowModel.Window.WindowRect | src/window.rs:112-118 | the window rect is at the window's position, empty when hidden and the image's size otherwise |
| WindowModel.Window.TitleRect | src/window.rs:120-131 | an empty rect at the position for borderless or hidden windows; otherwise a bar `28 * scale` high as wide as the window, sitting directly above it and not overlapping it |
| WindowModel.Window.BordersSpec | src/window.rs:138-191 | without `resizable` every border rect is the `(-1, -1, 0, 0)` stand-in; with it the bottom, left and right borders are `8 * scale` thick, flush with the body's edges and disjoint from it, and the corners sit below the body's bottom corners |
| WindowModel.Window.ButtonsSpec | src/window.rs:193-213 | the maximize and close buttons never both contain a point, neither exists on a borderless window, both lie in the `28 * scale` band above the window left of its right edge, and on a visible window inside the title rect |
| WindowModel.Window.Properties | src/window.rs:372-412 | the properties are the flag string of the window's flags, which `set_flag` reads back to those flags, its position, its image size and its title |
| WindowModel.Window.SetFlag | src/window.rs:441-467 | the flags after the call are `WithFlag` of the flags before (see `WithFlagSpec`) |
| WindowModel.Window.PushEvent | src/window.rs:329-355 | the queue after the call is `Coalesced(old queue, event)` (see `Events.CoalescedSpec`) |
| WindowModel.Window.Read | src/window.rs:362-370 | `read` hands over `min(buffer length, queued)` events: the oldest ones, in FIFO order, into the front of the buffer; the rest of the buffer is untouched and the rest of the queue stays queued (the source's own unit tests at lines 521-618 exercise the same three cases) |
| WindowModel.Window.SetSize | src/window.rs:469-490 | the image is replaced by a fresh zeroed, page-aligned `w`×`h` image whose top-left overlap with the old one holds the old pixels, pixel for pixel; every pixel outside the overlap is zero |
| Pixels.PackChannels | src/core/image.rs:107-118 | three channels below 256 packed as `(r << 16) \| (g << 8) \| b` stay below 2^24 and unpack to the same channels |
| Pixels.BlendPixel | src/core/image.rs:103-118 | alpha 255 or more copies the source pixel, alpha 0 keeps the destination, and otherwise each colour channel of the result is the destination weighted by `255 - a` plus the source weighted by `a`, each shifted right by 8, with no carry between channels and a zero alpha byte |
| Pixels.ZipRows | src/core/image.rs:101-132 | zipping the rows of two ROIs and their pixels changes exactly the first min(height) x min(width) pixels of the destination ROI, each to `f` of itself and the matching source pixel; every other pixel keeps its value |
| Pixels.MapRows | src/image.rs:130-156 | a loop over the rows of one ROI changes exactly the ROI's pixels, each to `f` of itself |
| Pixels.AtInBuffer | src/core/image.rs:18-23 | the index `(top + i) * w + left + j` of a pixel of a ROI that lies inside its image is inside the buffer |
| Pixels.AtCoords | src/core/image.rs:18-23 | a buffer index computed from a ROI row and column decodes back to that row and column |
| Pixels.ZoneAt | src/core/image.rs:101-132 | every pixel the zipped loops visit lies in the buffer and in the ROI's zone, at its own row and column |
| CoreImage.RowSpanSpec | src/core/image.rs:18-23 | the slice `next` hands out for row `i` lies in the buffer, has the ROI's width, and ends before the next row's slice starts |
| CoreImage.RoiRows.constructor | src/core/image.rs:83-90 | `rows` starts the iterator at row 0 of the ROI |
| CoreImage.RoiRows.Next | src/core/image.rs:18-27 | while rows remain, `next` returns the slice `(top + i) * w + left ..` of the ROI's width and advances; afterwards it returns `None` and stays put |
| CoreImage.RoiRowsMut.constructor | src/core/image.rs:92-99 | `rows_mut` starts at row 0 with the whole buffer still ahead |
| CoreImage.RoiRowsMut.Next | src/core/image.rs:39-58 | the mutable iterator, which skips the rows above the ROI once and then splits one image row off the rest per call, hands out the same slice `(top + i) * w + left ..` as the shared iterator, and `None` after the last row |
| CoreImage.Blend | src/core/image.rs:101-122 | `blend` sets each pixel of the overlap of the two ROIs to `BlendPixel` of itself and the matching pixel of `other`, and leaves every other pixel unchanged |
| CoreImage.Blit | src/core/image.rs:124-132 | `blit` copies the matching pixel of `other` into each pixel of the overlap of the two ROIs, and leaves every other pixel unchanged |
| CoreImage.Image.FromColor | src/core/image.rs:206-208 | `from_color` makes a buffer of `width * height` pixels, all of the given colour |
| CoreImage.Image.New | src/core/image.rs:202-204 | `new` makes a buffer of `width * height` black pixels |
| CoreImage.TargetInjective | src/core/image.rs:230-237 | no two (pixel, offset) pairs of the scaling loops write the same output index |
| CoreImage.TargetRange | src/core/image.rs:230-237 | every index the scaling loops write lies inside the output buffer |
| CoreImage.TargetOf | src/core/image.rs:230-237 | every output index is written by some pixel and offset of the scaling loops, so no output pixel is left black |
| CoreImage.Covered | src/core/image.rs:226-238 | after the scaling loops, each output pixel holds the source pixel at row `(q / (w * s)) / s` and column `(q % (w * s)) / s` |
| CoreImage.ScaleUp | src/core/image.rs:219-252 | a scale below 1 gives `None`, scale 1 gives the decoded image itself, and a larger scale gives a `w * s` by `h * s` image whose every pixel is the source pixel its block came from |
| CoreImage.AlignedBytesSpec | src/core/image.rs:322-326 | the byte size is rounded up to a multiple of the alignment, by less than one alignment, and holds at least `w * h` pixels when the alignment is a multiple of 4 |
| CoreImage.ImageAligned.constructor | src/core/image.rs:321-336 | `ImageAligned::new` makes a zero-filled buffer of the aligned size divided by 4 pixels, at least `w * h`, of the given width and height |
| LegacyImage.Blend | src/image.rs:100-121 | the legacy `blend` has the same per-pixel blend over the overlap of the two ROIs and leaves the rest unchanged |
| LegacyImage.Blit | src/image.rs:123-128 | the legacy `blit` copies the overlap of the two ROIs and leaves the rest unchanged |
| LegacyImage.Set | src/image.rs:130-156 | `set` makes each ROI pixel `BlendPixel(pixel, color)`: an opaque colour fills the ROI, a transparent one changes nothing, and no pixel outside the ROI changes |
| Utf8.EncodeCharDecodes | src/core/mod.rs:452 | the UTF-8 encoding of one character is read back by the decoder as that character, whatever bytes follow it |
| Utf8.DecodedCharEncodes | src/core/mod.rs:452 | a character the decoder accepts was spelt in exactly its own shortest encoding |
| Utf8.EncodeConcat | src/core/mod.rs:452 | the encoding of a concatenation is the concatenation of the encodings |
| Utf8.DecodeEncode | src/core/mod.rs:452 | every string's UTF-8 encoding is accepted by `from_utf8` and decodes to that string |
| Utf8.EncodeDecode | src/core/mod.rs:452 | every byte string `from_utf8` accepts is the encoding of the string it yields |
| Text.SplitSpec | src/core/mod.rs:177-180 | `split(c)` yields pieces that do not contain `c` and that, joined with `c`, give back the string; it yields one piece exactly when `c` does not occur |
| Text.SplitJoin | src/core/mod.rs:177-180 | splitting pieces free of `c` after joining them with `c` gives back the pieces |
| Text.JoinConcat | src/core/mod.rs:177-180 | joining two runs of pieces is joining each and putting `c` between |
| Text.SplitOnceSpec | src/core/mod.rs:454-456 | `splitn(2, c)` gives the text before the first `c` and everything after it, or the whole string and an empty tail when there is no `c` |
| Text.TrimSpec | src/config.rs:43 | `trim` removes exactly the leading and trailing whitespace: what it drops is whitespace, and the result neither starts nor ends with whitespace |
| Text.TrimStartSpec | src/config.rs:43 | `trim_start` yields a suffix that does not start with whitespace, and drops only whitespace |
| Text.TrimEndSpec | src/config.rs:43 | `trim_end` yields a prefix that does not end with whitespace, and drops only whitespace |
| Text.LinesSpec | src/config.rs:42 | `lines` yields lines without line feeds, none for an empty text, and for a text that ends in a line feed and has no carriage return, the lines each followed by a line feed give back the text |
| Text.ParseI32 | src/core/mod.rs:179-180 | a number `parse::<i32>` accepts fits in 32 bits |
| Text.FormatNatValue | src/core/mod.rs:594-597 | the decimal numeral of `n` has the value `n` |
| Text.FormatIntChars | src/core/mod.rs:594-597 | an `i32` formatted with `{}` is made of digits and minus signs and is never empty |
| Text.FormatIntFree | src/core/mod.rs:594-597 | a formatted number contains no character other than digits and `-`, so it never holds a path separator |
| Text.ParseFormat | src/core/mod.rs:594-597 | `parse::<i32>` reads back every `i32` formatted with `{}` |
| Protocol.Route | src/core/mod.rs:431-434 | a handle id selects the clipboard exactly when `CLIPBOARD_FLAG` is set, and the clipboard id is the handle with the flag cleared, from which the flag restores the handle |
| Protocol.WindowIdsRouteToWindows | src/core/mod.rs:446-450 | every id below `CLIPBOARD_FLAG` routes to the window of that id |
| Protocol.Dup | src/core/mod.rs:423-430 | `dup` refuses anything but `clipboard` with EINVAL, passes the handler's error on, and returns a handle that routes back to the new clipboard |
| Protocol.ReadCallOf | src/core/mod.rs:431-442 | a clipboard handle reads bytes into the whole buffer; a window handle reads as many whole events as fit in the buffer |
| Protocol.ReadReply | src/core/mod.rs:443-444 | `read` passes errors and clipboard counts on, and returns a window's event count in bytes, a whole number of events that fits the buffer |
| Protocol.Open | src/core/mod.rs:405-421 | reference definition of the path parsing of `open` (no contract of its own): flags, x, y, width and height as '/'-separated fields, a missing or malformed number 0, the title the rest; `Protocol.OpenSpec` states what it yields |
| Protocol.OpenSpec | src/core/mod.rs:405-421 | `open` takes the text before the first `/` as the flags, and as the title everything after the fifth `/`, separators included, or nothing when there are at most five fields |
| Protocol.Fpath | src/core/mod.rs:590-598 | `fpath` writes as much of the UTF-8 `orbital:flags/x/y/w/h/title` path as fits in the buffer and returns the count written |
| Protocol.FpathRoundTrip | src/core/mod.rs:405-421 | the path `fpath` reports for a window, split at the `:` and opened again, gives back the window's position, size, flags and title |
| Protocol.UrlParts | src/core/mod.rs:165-174 | reference definition of `url_parts` (no contract of its own): the text before the first ':' and the text up to the next one, an error without ':'; `Protocol.UrlPartsSpec`, `Protocol.UrlPartsOf` and the `Protocol.UrlParts…` test cases state what it yields |
| Protocol.UrlPartsSpec | src/core/mod.rs:165-174 | `url_parts` fails exactly when there is no `:`, and otherwise returns the text before the first `:` and the text up to the next `:` or the end |
| Protocol.UrlPartsOf | src/core/mod.rs:165-174 | a scheme and a path without `:` joined by `:` come back out of `url_parts`, whatever follows another `:` |
| Protocol.UrlPartsNoColon | src/core/mod.rs:634-636 | `foo-no-colon` has no scheme name |
| Protocol.UrlPartsEmptyScheme | src/core/mod.rs:639-648 | `:path` has an empty scheme name and the path `path` |
| Protocol.UrlPartsEmptyPath | src/core/mod.rs:651-660 | `scheme:` has the scheme `scheme` and an empty path |
| Protocol.UrlPartsBoth | src/core/mod.rs:663-671 | `scheme:path` splits into `scheme` and `path` |
| Protocol.ParseDisplayPath | src/core/mod.rs:176-183 | reference definition of `parse_display_path` (no contract of its own): the first three '/'-separated fields, a missing or malformed number 0; `Protocol.DisplayPathRoundTrip` and `Protocol.DisplayPathDefaults` state what it yields |
| Protocol.DisplayPathRoundTrip | src/core/mod.rs:176-183 | `parse_display_path` reads back a screen name without `/` followed by two formatted `i32`s |
| Protocol.DisplayPathDefaults | src/core/mod.rs:176-183 | a display path without `/` is the whole screen name, with width and height 0 |
| Protocol.ParseCommand | src/core/mod.rs:452-547 | a command message either fails with EINVAL or yields a command of the kind named before its first comma |
| Protocol.ParseWrite | src/core/mod.rs:446-551 | a window `write` that is not UTF-8 fails with EINVAL; otherwise it reads the decoded message |
| Protocol.CommandGrammar | src/core/mod.rs:455-547 | `A` needs `0` or `1`, `D` needs nothing after it, `F` needs a `0` or `1` after the flags, `M` accepts exactly `C`, `G` or `R` with `0` or `1`, `P`, `S` and `T` always parse, and any other kind is EINVAL |
| Protocol.ParseFormatted | src/core/mod.rs:452-547 | every command the client library can spell is parsed back to itself |
| Protocol.WriteFormatted | src/core/mod.rs:446-551 | the UTF-8 encoding of every spellable command, written to a window, yields that same command |
| Protocol.ParseTitle | src/core/mod.rs:542-546 | everything after `T,`, commas included, is the title |
| Protocol.ParseFlags | src/core/mod.rs:484-491 | `F,flags,0/1` sets or clears the listed flags |
| Protocol.ParseMouse | src/core/mod.rs:497-523 | `M,C`, `M,G` and `M,R` with `0` or `1` give the cursor, grab and relative-mode commands |
| Protocol.ParsePair | src/core/mod.rs:524-541 | `P` and `S` read two optional `i32`s: a missing or unparsable number gives `None` |
| Protocol.OptionalIntRoundTrip | src/core/mod.rs:526-527 | an optional `i32` written as a numeral, or as nothing, is read back by `parse::<i32>().ok()` and contains no comma |
| Protocol.Calls | src/core/mod.rs:484-496 | an `F` command sets each flag character of the message in turn with the same value; every other command makes one handler call |
| Protocol.FlagsCalls | src/core/mod.rs:492-494 | one `set_flag` call per character of the flag string, in order, all with the same value |
| Protocol.WriteCallOf | src/core/mod.rs:446-451 | a clipboard handle passes the raw bytes to the clipboard; a window handle gets the parsed message |
| Protocol.WriteReply | src/core/mod.rs:446-551 | a clipboard write returns the handler's count, a malformed window write EINVAL, a failed handler call its error, and a successful one the whole buffer length |
| Protocol.MmapPrep | src/core/mod.rs:611-619 | `mmap_prep` succeeds exactly when the window mapping succeeds and covers the requested size in bytes; a mapping error is passed on and a size too large is EINVAL |
| Protocol.Retried | src/core/mod.rs:371-383 | reference definition of one pass over the delayed packets (no contract of its own): a packet that must still wait and got no reply stays, every other is handled and sent, in order; `Protocol.RetriedSpec` states what it yields |
| Protocol.RetriedSpec | src/core/mod.rs:371-383 | the retry loop over `todo` sends or keeps every packet, and the kept ones stay in their order |
| Protocol.Orbital.constructor | src/core/mod.rs:270-276 | the display server starts with no packets waiting |
| Protocol.Orbital.RetryTodo | src/core/mod.rs:371-383 | the loop with `todo.remove(i)` leaves in `todo` exactly the packets the function definition keeps, and sends the others in order |
| LegacyProtocol.LegacyOpen | orbital-core/src/lib.rs:311-328 | the older `open` fails with EINVAL unless the path is UTF-8, and otherwise reads the same fields as the newer one |
| LegacyProtocol.LegacyCommand | orbital-core/src/lib.rs:334-360 | the older `write` succeeds exactly when the first comma-separated field is `P`, `S` or `T`, names that command, and fails with EINVAL otherwise |
| LegacyProtocol.LegacyWrite | orbital-core/src/lib.rs:333-364 | a message that is not UTF-8 is EINVAL; otherwise the decoded message is read |
| LegacyProtocol.LegacyWriteReply | orbital-core/src/lib.rs:333-364 | the older `write` answers EINVAL for a message that is not UTF-8 or names no known command, the handler's error when the handler fails, and otherwise the length of the whole buffer |
| LegacyProtocol.LegacyTitle | orbital-core/src/lib.rs:353-357 | the older `T` takes the title only up to its first comma |
| LegacyProtocol.LegacyPair | orbital-core/src/lib.rs:337-350 | the older `P` and `S` read back both optional coordinates |
| LegacyProtocol.GrammarsAgree | orbital-core/src/lib.rs:334-360 | for position and size commands, and titles without commas, the older and newer parsers agree |
| LegacyProtocol.DisplaySizeAgrees | orbital-core/src/lib.rs:159-162 | the older display-size reading `split(":").nth(1)` then `split("/")` gives 0 by 0 when there is no `:` and otherwise the same width and height as `parse_display_path` |
| Configuration.FromStr | src/config.rs:30-71 | the line loop leaves `background` as every `background=` value in file order and each other field as the value of the last line carrying its key (empty when no line does), over the trimmed lines |
| Configuration.ApplyLine | src/config.rs:43-67 | one trimmed line updates the configuration as `Step` does: `background=` appends, every other key overwrites its own field |
| Configuration.ParseStep | src/config.rs:42-68 | parsing one more line is one more `Step` on the configuration parsed so far |
| Configuration.ParseFields | src/config.rs:30-71 | field by field, the parsed configuration is the list of backgrounds and the last value per key |
| Configuration.BackgroundsStep | src/config.rs:44-46 | a line starting with `background=` appends the text after the 11-character key, any other line appends nothing |
| Configuration.LastValueStep | src/config.rs:47-67 | a line carrying the key replaces the value, any other line keeps it |
| Configuration.EmptyConfig | src/config.rs:31-40 | an empty file yields no backgrounds and empty strings for every key (what `from_path` gets when the file cannot be read, lines 16-28) |
| Configuration.BackgroundsConcat | src/config.rs:44-46 | the backgrounds of two blocks of lines are the first block's followed by the second's, in file order |
| Configuration.BackgroundsOne | src/config.rs:44-46 | a single line contributes its background value exactly when it starts with `background=` |
| Configuration.LastValueWins | src/config.rs:47-67 | the value of a key is the suffix of the last line that carries it |
| Configuration.LastValueUnset | src/config.rs:31-40 | a key no line carries keeps its initial empty value |
| Configuration.Clash | src/config.rs:44-67 | two keys that differ at a position both lines reach cannot both prefix one line |
| Configuration.KeysExclusive | src/config.rs:44-67 | every line matches at most one of the eight keys (`background=` and `background_mode=`, `window_close=` and `window_close_unfocused=` clash before their ends), so the eight `if`s never fire twice for a line |
| Scheme.CursorRect | src/scheme.rs:168-180 | the cursor image is placed so that its hot spot, a corner or the middle of an edge according to the cursor kind, is on the pointer, which therefore lies on the image |
| Scheme.ScheduledWindowCovers | src/scheme.rs:612-613 | scheduling a window's title bar and client area leaves both covered, keeps every rectangle covered before, and adds at most two entries |
| Scheme.ListedSpec | src/scheme.rs:185-189 | the loop of `rezbuffer` pushes exactly one entry per position of `order` whose id names a window, with that window's z-order, by increasing position |
| Scheme.ZBufferSpec | src/scheme.rs:182-192 | `rezbuffer` leaves exactly those entries, sorted by z-order with the highest first by a stable sort, so entries of one level keep their focus order |
| Scheme.ClipboardRead | src/scheme.rs:413-426 | a clipboard read returns `min(len, remaining)` bytes and advances the window's seek position by as many, but copies them from the start of the clipboard |
| Scheme.ClipboardReadRepeats | src/scheme.rs:417-421 | two reads in a row both return the first bytes of the clipboard |
| Scheme.ClipboardWritten | src/scheme.rs:428-442 | a clipboard write keeps the clipboard up to the window's seek position and appends the written bytes |
| Scheme.ClipboardRoundTrip | src/scheme.rs:413-442 | a write from position 0 replaces the clipboard, and a read from 0 then returns exactly what was written |
| Scheme.VolumeStep | src/scheme.rs:582-591 | down lowers the volume by 5 to no less than 0, up raises it by 5 to no more than 100, and toggle mutes a non-zero volume, remembering it, or restores the remembered one |
| Scheme.VolumeToggleRestores | src/scheme.rs:585-590 | toggling twice mutes and then restores a volume that was set |
| Scheme.RotatedSpec | src/scheme.rs:605-619 | Win+Tab keeps the same windows, brings the second one to the front and sends the first one to the back |
| Scheme.RotatedShift | src/scheme.rs:605-619 | after `k` presses of Win+Tab the focus order is the old one started `k` places in |
| Scheme.RotatedCycle | src/scheme.rs:605-619 | as many presses of Win+Tab as there are windows bring the focus order back |
| Scheme.GridSnapSpec | src/scheme.rs:742-743 | `x -= x % 16` gives a multiple of 16 less than 16 from `x`, toward zero |
| Scheme.Clamp | src/scheme.rs:754-767 | `max(lo, min(hi, v))` is at least `lo`, at most `hi` when `lo <= hi`, and `v` itself when `v` lies between |
| Scheme.GridMovedSpec | src/scheme.rs:730-773 | an arrow key moves only the window's position, keeps at least one grid step of the window on the screen, leaves it on the grid unless the clamp moved it, and on the other axis only snaps and clamps |
| SchemeState.Notify | src/scheme.rs:614-617 | `window.event(e)` on an existing window changes only that window's queue: the set of windows, every window apart from its queue, and every window's size stay as they were |
| SchemeState.NotifySpec | src/scheme.rs:614-617 | telling a window of an event changes only that window's queue, which takes the event coalesced with its last one; an unknown id changes nothing |
| SchemeState.FocusChangedSpec | src/scheme.rs:1224-1231 | a focus change redraws the front window's title bar and body and queues the focus event there; nothing else changes, and with no front window nothing changes at all |
| SchemeState.WinTabbed | src/scheme.rs:605-632 | `win_tab` changes only the order, the drag, the redraw list and the windows' queues; it keeps the set of windows, and the order either stays or, with more than one window, is rotated; `SchemeState.WinTabbedSpec`, `SchemeState.WinTabbedFrame` and `SchemeState.WinTabbedFocus` state the rest |
| SchemeState.WinTabbedSpec | src/scheme.rs:605-631 | Win+Tab with more than one window ends any drag, sends the front window to the back, tells the old front it lost the focus and the new one it gained it, redraws them, and changes no other window; with one window or none it does nothing |
| SchemeState.WinTabbedFrame | src/scheme.rs:605-621 | Win+Tab keeps the same windows and the same multiset of ids, and the old front window ends last |
| SchemeState.WinTabbedFocus | src/scheme.rs:610-629 | Win+Tab tells the two windows of the focus change and keeps everything scheduled before |
| SchemeState.ReorderedSpec | src/scheme.rs:1235-1248 | the clicked window moves to the front of the focus order, except a Back window, which keeps its place; the order stays a permutation |
| SchemeState.RefocusedSpec | src/scheme.rs:1222-1260 | a refocus reorders as above, keeps the windows and everything scheduled, and tells the new front window that it gained the focus |
| SchemeState.RefocusedNotices | src/scheme.rs:1250-1259 | the focus event for the new front window comes after the old front has been told |
| SchemeState.CursorUpdatedSpec | src/scheme.rs:198-220 | after `update_cursor` the cursor has the given kind and place; when either changed, the rectangle the cursor left and the one it now covers are both scheduled; otherwise nothing changes |
| SchemeState.CursorMovedSpec | src/scheme.rs:199-207 | each half of `update_cursor` schedules the cursor rectangle before and after the change, and keeps earlier damage |
| SchemeState.ZoneOfSpec | src/scheme.rs:851-888 | the part of a window the pointer is found in holds the pointer, and no part checked before it does: the client area, then the title bar, then the borders |
| SchemeState.ProbeFrom | src/scheme.rs:848-890 | the scan of the z-buffer stops at the first entry whose window the pointer falls in, or finds none |
| SchemeState.BestDisplaySpec | src/scheme.rs:1140-1149 | the display chosen for maximizing shares the most area with the window, and strictly more than every display before it |
| SchemeState.Maximized | src/scheme.rs:1130-1180 | the max button only moves the window, changes its saved rectangle and queues events |
| SchemeState.MaximizedSaves | src/scheme.rs:1131-1135 | the first press saves the client area and leaves the size to the client |
| SchemeState.MaximizedRestores | src/scheme.rs:1151-1180 | pressing the max button twice puts the window back where it was, forgets the saved rectangle and asks the client for the old size |
| SchemeState.MovedTo | src/scheme.rs:894-911 | moving a window during a drag places it at the new point and changes no size, no window set and no drag |
| SchemeState.MovedToCovers | src/scheme.rs:895-911 | a move keeps everything scheduled before |
| SchemeState.Entered | src/scheme.rs:856-869 | telling the hovered window of the pointer only queues events |
| SchemeState.HoverScan | src/scheme.rs:847-891 | the scan when nothing is dragged only queues events, and hovers only a window whose client area holds the pointer |
| SchemeState.TitleDragged | src/scheme.rs:892-916 | a title drag moves the window by the pointer's motion since the last event and records the new pointer place |
| SchemeState.LeftDragged | src/scheme.rs:917-951 | a left-edge drag keeps the drag, creates, removes and resizes no window |
| SchemeState.RightDragged | src/scheme.rs:952-966 | a right-edge drag only queues a resize request |
| SchemeState.BottomDragged | src/scheme.rs:967-981 | a bottom-edge drag only queues a resize request |
| SchemeState.BottomLeftDragged | src/scheme.rs:982-1017 | a bottom-left drag keeps the drag, creates, removes and resizes no window |
| SchemeState.BottomRightDragged | src/scheme.rs:1018-1033 | a bottom-right drag only queues a resize request |
| SchemeState.Dragged | src/scheme.rs:892-1033 | a pointer move while dragging ends the drag only when its window has gone; a title drag follows the pointer, and every other drag stays as it is |
| SchemeState.Scanned | src/scheme.rs:846-1034 | with nothing dragged the scan starts no drag; during a drag nothing is hovered and the drag step is taken |
| SchemeState.Hovered | src/scheme.rs:1036-1047 | a change of hover tells the window left that the pointer left it and records the new one |
| SchemeState.PointerMoved | src/scheme.rs:841-1050 | `mouse_event` changes only the cursor, the drag, the hover, the redraws and the windows, and no window's size |
| SchemeState.DraggedCovers | src/scheme.rs:892-1033 | whatever a drag schedules, it keeps what was scheduled before |
| SchemeState.PointerMovedKeeps | src/scheme.rs:841-1050 | `mouse_event` puts the cursor on the pointer, keeps the focus order, z-buffer, keys, clipboard and every window size, and keeps everything scheduled |
| SchemeState.PointerMovedShifts | src/scheme.rs:841-1050 | `mouse_event` changes a window only in its place and its queue, so its title, flags, scale and settings stay, and it moves no window but the one being dragged |
| SchemeState.PointerMovedDrags | src/scheme.rs:892-1033 | a drag ends only when its window has gone; a title drag follows the pointer and moves the window by the pointer's motion |
| SchemeState.PointerMovedSpec | src/scheme.rs:841-1050 | all of the above for one `mouse_event` |
| SchemeState.Pressed | src/scheme.rs:1100-1270 | reference definition of `button_event` (no contract of its own): the scan of the z-buffer when nothing is dragged, the end of a drag when the left button is released, then the buttons recorded; `SchemeState.PressedKeeps` and `SchemeState.PressedFocus` state what it yields |
| SchemeState.PressedAt | src/scheme.rs:1108-1218 | a press in a part of a window changes only that window, the drag and the redraws; the window only moves, and a drag starts only on a fresh left press, on that window |
| SchemeState.TitlePressed | src/scheme.rs:1126-1187 | a fresh left press on the title bar maximizes, asks to quit, or starts a title drag at the pointer |
| SchemeState.BorderDrag | src/scheme.rs:1188-1217 | a press on a border starts the drag of that border, keeping the pointer's offset from the edges it moves and, for a left edge, where the right edge is |
| SchemeState.PressedFree | src/scheme.rs:1103-1260 | a button event with nothing dragged changes only the focus order, the drag, the redraws and the windows, and keeps the window set |
| SchemeState.PressedKeeps | src/scheme.rs:1100-1270 | `button_event` records the buttons and keeps the window set; while something is dragged it only ends the drag when the left button is up |
| SchemeState.PressedAtSpec | src/scheme.rs:1108-1218 | the client area forwards the buttons, or with the super key starts a title drag; the max button maximizes; the close button asks the client to quit; elsewhere on the title bar a drag starts; a border starts its own drag; only a fresh left press acts outside the client area |
| SchemeState.PressedFocus | src/scheme.rs:1103-1260 | a press on nothing leaves everything but the buttons; a press on a window keeps the focus order a permutation, leaves it alone for a Back window, and a fresh left press brings any other window to the front |
| SchemeState.RefocusedOrder | src/scheme.rs:1222-1248 | the refocus after a press on z-buffer entry `k` keeps the order a permutation and brings the window forward unless it is a Back window |
| SchemeState.VolumeSet | src/scheme.rs:568-603 | a volume that cannot be read or parsed changes nothing; otherwise the new volume is kept even when writing it back fails, but only a write shows the on-screen display |
| SchemeState.VolumeKey | src/scheme.rs:690-707 | a volume key changes only the volume state |
| SchemeState.FrontNotify | src/scheme.rs:710-716 | an event for the front window only queues it |
| SchemeState.ArrowMoved | src/scheme.rs:730-778 | an arrow key changes only the redraws and the windows, and keeps the window set |
| SchemeState.ArrowMovedSpec | src/scheme.rs:730-778 | Super and an arrow moves the front window, unless borderless, to its snapped place one step over, kept on screen, tells it, and redraws it where it was and where it is |
| SchemeState.Least | src/scheme.rs:812-820 | the first key of a `BTreeMap` is its least key |
| SchemeState.WinCommand | src/scheme.rs:708-821 | a key with the super key held changes only the keys, the drag, the order, the redraws and the windows; the order either stays or rotates |
| SchemeState.Keyed | src/scheme.rs:682-840 | `key_event` changes only the key state, the drag, the order, the redraw list and the windows; it keeps the set of windows, and the order either stays or, with more than one window, is rotated; `SchemeState.KeyedSystem`, `SchemeState.KeyedTyped`, `SchemeState.KeyedTab` and `SchemeState.KeyedSuper` state the cases |
| SchemeState.KeyedSystem | src/scheme.rs:683-707 | the super key sets its flag, and releasing it also closes the switcher and the volume display; releasing a volume key closes the volume display; pressing a volume key changes only the volume |
| SchemeState.KeyedTyped | src/scheme.rs:822-831 | without the super key a key goes to the front window: first the typed character for a press of a key with one, then the key event; nothing else changes |
| SchemeState.KeyedTab | src/scheme.rs:717-721 | Super and Tab opens the window switcher and is Win+Tab |
| SchemeState.KeyedSuper | src/scheme.rs:811-820 | a super key that is no command goes to the window with the least id, flagged as a super event |
| SchemeHandlers.Reach | src/scheme.rs:1080-1086 | the display loop finds the largest right (or bottom) edge of all displays, and 0 when there is none larger |
| SchemeHandlers.SnappedYSpec | src/scheme.rs:1090-1095 | when no display spans the column the row is left alone; when display `i` is the last to span it, the row ends up inside that display's rows |
| SchemeHandlers.SnappedYUntouched | src/scheme.rs:1090-1095 | a column no display spans leaves the row as it was |
| SchemeHandlers.SnappedYLast | src/scheme.rs:1090-1095 | the last display spanning the column clamps the row into its own rows |
| SchemeHandlers.RelativeTarget | src/scheme.rs:1088-1095 | relative motion moves the pointer by the motion, kept between 0 and the largest right edge, and its row is clamped and then snapped to a display spanning its column |
| SchemeHandlers.RelativeMoved | src/scheme.rs:1052-1098 | a front window that asked for relative motion is sent it and the cursor, hidden, is put at its centre; otherwise the pointer moves as above and `mouse_event` runs there, keeping the focus order and the windows |
| SchemeHandlers.WrapIsize | src/scheme.rs:1369 | the 64-bit signed increment wraps around into the `isize` range and leaves values in range alone |
| SchemeHandlers.NextIdAfterSpec | src/scheme.rs:1368-1373 | ids count up from 1 and are handed out as they are; past `isize::MAX` the counter wraps, goes negative and is reset to 1, so it stays positive |
| SchemeHandlers.Placed | src/scheme.rs:1375-1379 | a window asked for at negative x and y is centred on the screen but kept right of 0 and below the title bar height; otherwise it goes where it asked |
| SchemeHandlers.WithCreateFlag | src/scheme.rs:1391-1400 | `a`, `l`, `r`, `t` and `u` switch on their flag, `b` and `f` set the level to back and front, any other character does nothing |
| SchemeHandlers.FlagsAppliedSwitches | src/scheme.rs:1390-1401 | each of asynchronous, borderless, resizable, transparent and unclosable is on exactly when it was or its letter appears in the flags |
| SchemeHandlers.FlagsAppliedLevel | src/scheme.rs:1390-1401 | the level is the one named by the last `b` or `f`, and unchanged when there is neither |
| SchemeHandlers.Inserted | src/scheme.rs:1381-1418 | the new window is stored under its id and goes to the front of the focus order, or to the back for a Back window |
| SchemeHandlers.Created | src/scheme.rs:1364-1428 | `window_new` returns the current counter as the id and moves the counter on; the new window is added with the size asked for, the title given, the scheme's scale and the flags its creation string applies (`FlagsAppliedSwitches`, `FlagsAppliedLevel`); it sits where `Placed` puts it, centred and kept on screen when asked for negative x and y, unless a drag left over from an earlier window with the same id moves it; it joins the focus order at the front, or at the back for the Back level, and the pointer stays where it was |
| SchemeHandlers.EventsRead | src/scheme.rs:246-253 | a read takes the oldest queued events, as many as the buffer holds or as are queued, off the queue in order; EBADF for an unknown window |
| SchemeHandlers.EventsReadDrains | src/scheme.rs:246-253 | a read with room for the whole queue returns it all and empties it |
| SchemeHandlers.Switched | src/scheme.rs:254-285 | each setter changes only its own switch of the window |
| SchemeHandlers.Set | src/scheme.rs:254-285 | `handle_window_async` and the mouse setters change one switch of a known window and answer EBADF for an unknown window, changing nothing |
| SchemeHandlers.NotifiedCleared | src/scheme.rs:332-339 | clearing the notified mark changes only that mark of a known window; EBADF otherwise |
| SchemeHandlers.Positioned | src/scheme.rs:286-301 | a move sets each coordinate given, keeps a missing one, and changes nothing but the window and the redraws; EBADF for an unknown window |
| SchemeHandlers.PositionedCovers | src/scheme.rs:286-301 | a moved window is redrawn both where it was and where it is, and nothing scheduled is lost |
| SchemeHandlers.Resized | src/scheme.rs:302-319 | a resize sets each dimension given, keeps a missing one, and changes nothing but the window and the redraws; EBADF for an unknown window |
| SchemeHandlers.ResizedCovers | src/scheme.rs:302-319 | a resized window is redrawn at both sizes, and nothing scheduled is lost |
| SchemeHandlers.Titled | src/scheme.rs:320-331 | a new title is set and its bar redrawn; nothing else changes; EBADF for an unknown window |
| SchemeHandlers.Mapped | src/scheme.rs:340-347 | a map counts one more mapping and changes nothing else; EBADF for an unknown window |
| SchemeHandlers.Unmapped | src/scheme.rs:348-359 | as written, an unmap with mappings held counts one more mapping, and with none changes nothing; EBADF for an unknown window |
| SchemeHandlers.MapUnmapCounts | src/scheme.rs:340-359 | as written, a map followed by an unmap leaves two mappings counted |
| SchemeHandlers.PropertiesOf | src/scheme.rs:360-366 | the properties are those of the window as it is, and EBADF exactly for an unknown id |
| SchemeHandlers.Synced | src/scheme.rs:367-374 | a sync schedules the client area and answers 0; EBADF for an unknown window |
| SchemeHandlers.Refronted | src/scheme.rs:376-383 | the focus order is replaced and only redraws are added |
| SchemeHandlers.Removed | src/scheme.rs:375-391 | the id leaves the focus order and the table, the window is redrawn where it was, and the answer is 0, or EBADF for an unknown id |
| SchemeHandlers.Closed | src/scheme.rs:375-401 | `handle_window_close` removes the window from the order and the table, keeps every other window's size, the pointer, clipboard, counter and keys, loses no damage, and redraws the closed window's place; EBADF for an unknown id |
| SchemeHandlers.ClosedOrder | src/scheme.rs:376 | closing takes every occurrence of the id out of the focus order and keeps the rest in their order |
| SchemeHandlers.ClipboardOpened | src/scheme.rs:403-411 | opening the clipboard puts the window's position back to 0 and returns the window's id; EBADF for an unknown window |
| SchemeHandlers.ClipboardReadBy | src/scheme.rs:413-426 | a read returns up to `len` bytes from the start of the clipboard, as many as remain after the position, and moves the position on; EBADF for an unknown window |
| SchemeHandlers.ClipboardWrittenBy | src/scheme.rs:428-442 | a write cuts the clipboard at the window's position, appends the buffer, moves the position past it and answers the buffer length; EBADF for an unknown window |
| SchemeHandlers.ClipboardClosed | src/scheme.rs:444-451 | closing the clipboard answers 0 for a known window and EBADF otherwise |
| SchemeHandlers.ClipboardWriteRead | src/scheme.rs:403-442 | a window that opens the clipboard, writes a buffer and opens it again reads back what it wrote |
| SchemeHandlers.Broadcast | src/scheme.rs:1282-1284 | every window is told of the same event |
| SchemeHandlers.ScreenResized | src/scheme.rs:1272-1285 | a display resize remaps the first display, redraws its screen rect and tells every window its size afterwards: the new size when the remap succeeds, the old one when it fails (`Display::resize` keeps the old image then); nothing else changes and no damage is lost |
| SchemeHandlers.Scrolled | src/scheme.rs:1295-1302 | a scroll goes to the window of the first z-buffer entry, when it exists, and to no other |
| SchemeHandlers.Rezbuffered | src/scheme.rs:1288 | `event` rebuilds the z-buffer from the focus order before anything else |
| SchemeHandlers.Dispatched | src/scheme.rs:1287-1306 | reference definition of `event` (no contract of its own): the z-buffer is rebuilt, then the input goes to its handler and an unknown input changes nothing else; `SchemeHandlers.DispatchedPress` and the handlers' own rows state what it yields, and `SchemeServer.OrbitalScheme.Event` is proved equal to it |
| SchemeHandlers.DispatchedPress | src/scheme.rs:1287-1294 | with nothing dragged, and because the z-buffer is rebuilt first, a press on a window keeps the focus order a permutation, leaves a background window in its place, and a fresh left press brings any other to the front |
| SchemeHandlers.AnnouncedOne | src/scheme.rs:1313-1331 | after the loop a window is marked notified exactly when it has events |
| SchemeHandlers.Announced | src/scheme.rs:1313-1331 | the loop marks every window, each by the same rule |
| SchemeHandlers.AnnouncedOnce | src/scheme.rs:1313-1331 | a synchronous window is announced once for its events: until it reads them or clears the mark, the next round announces only the asynchronous windows |
| SchemeServer.MaxScale | src/scheme.rs:112-116 | the scale is at least 1, no display's scale exceeds it, and it is 1 or some display's scale |
| SchemeServer.ApplyFlags | src/scheme.rs:1390-1401 | the loop over the flag characters computes the style `SchemeHandlers.FlagsApplied` describes |
| SchemeServer.AnnouncedStep | src/scheme.rs:1313-1331 | visiting the least pending window in ascending id order marks it as `AnnouncedOne` says, leaves the others as they were, and writes a packet for it exactly when it is announced |
| SchemeServer.AnnouncedStart | src/scheme.rs:1313 | before the loop no window has been visited |
| SchemeServer.AnnounceAll | src/scheme.rs:1313-1331 | the loop leaves the table `Announced` describes and writes one packet per announced window, in ascending id order |
| SchemeServer.OrbitalScheme.constructor | src/scheme.rs:111-158 | one redraw per display, its whole screen, in display order; the scale is the largest display scale; the arrow cursor at the origin with no button held; nothing dragged, hovered, ordered or open; the keys at rest and ids starting at 1 |
| SchemeServer.OrbitalScheme.ScheduleRect | src/scheme.rs:37-51 | the request is merged into the redraw list as `Damage.Scheduled` describes |
| SchemeServer.OrbitalScheme.ScheduleWindow | src/scheme.rs:295-299 | a window's title bar and then its body are scheduled |
| SchemeServer.OrbitalScheme.Rezbuffer | src/scheme.rs:182-192 | the z-buffer is rebuilt from the focus order as `SchemeHandlers.Rezbuffered` describes, nothing else changes |
| SchemeServer.OrbitalScheme.WindowRead | src/scheme.rs:246-253 | the read updates the object exactly as `SchemeHandlers.EventsRead` says and returns its answer |
| SchemeServer.OrbitalScheme.SetSwitch | src/scheme.rs:254-285 | the setters update the object exactly as `SchemeHandlers.Set` says |
| SchemeServer.OrbitalScheme.ClearNotified | src/scheme.rs:332-339 | as `SchemeHandlers.NotifiedCleared` says |
| SchemeServer.OrbitalScheme.Position | src/scheme.rs:286-301 | as `SchemeHandlers.Positioned` says |
| SchemeServer.OrbitalScheme.Resize | src/scheme.rs:302-319 | as `SchemeHandlers.Resized` says |
| SchemeServer.OrbitalScheme.SetTitle | src/scheme.rs:320-331 | as `SchemeHandlers.Titled` says |
| SchemeServer.OrbitalScheme.Map | src/scheme.rs:340-347 | as `SchemeHandlers.Mapped` says |
| SchemeServer.OrbitalScheme.Unmap | src/scheme.rs:348-359 | as `SchemeHandlers.Unmapped` says, counting up as written |
| SchemeServer.OrbitalScheme.Properties | src/scheme.rs:360-366 | the answer is `SchemeHandlers.PropertiesOf` the current state |
| SchemeServer.OrbitalScheme.Sync | src/scheme.rs:367-374 | as `SchemeHandlers.Synced` says |
| SchemeServer.OrbitalScheme.Close | src/scheme.rs:375-401 | as `SchemeHandlers.Closed` says; the id counter stays between 1 and `isize::MAX` |
| SchemeServer.OrbitalScheme.ClipboardNew | src/scheme.rs:403-411 | as `SchemeHandlers.ClipboardOpened` says |
| SchemeServer.OrbitalScheme.ClipboardReadInto | src/scheme.rs:413-426 | the copy loop fills the buffer as `SchemeHandlers.ClipboardReadBy` says |
| SchemeServer.OrbitalScheme.ClipboardWrite | src/scheme.rs:428-442 | the truncation and the push loop leave the clipboard `SchemeHandlers.ClipboardWrittenBy` describes |
| SchemeServer.OrbitalScheme.ClipboardClose | src/scheme.rs:444-451 | the answer is `SchemeHandlers.ClipboardClosed` |
| SchemeServer.OrbitalScheme.Insert | src/scheme.rs:1381-1418 | the object becomes `SchemeHandlers.Inserted` of the old state |
| SchemeServer.OrbitalScheme.WindowNew | src/scheme.rs:1364-1428 | the object and the id become `SchemeHandlers.Created` of the old state, with automatic placement centred on the first display; the id is the old counter, and the counter, advanced with its wrap back to 1, stays between 1 and `isize::MAX` |
| SchemeServer.OrbitalScheme.Event | src/scheme.rs:1287-1306 | the object becomes `SchemeHandlers.Dispatched` of the old state, the handler chosen by the kind of input; the id counter stays between 1 and `isize::MAX` |
| SchemeServer.OrbitalScheme.Announce | src/scheme.rs:1313-1331 | the table becomes `Announced` and the packets go to exactly the announced windows, in ascending id order |
| Compositing.PopupRect | src/compositor.rs:111-119 | the popup keeps its size and is centred on the screen, its two margins differing by at most one pixel, and a popup no larger than the screen lies inside it |
| Compositing.CursorRect | src/compositor.rs:130-137 | the cursor rect puts the hotspot on the pointer, keeps the image's size, and contains the pointer when the hotspot is inside the image |
| Compositing.ScheduledTwiceCovers | src/compositor.rs:139-182 | two schedules in a row cover both requests and all earlier damage and add at most two rects |
| Compositing.Compositor.constructor | src/compositor.rs:45-79 | one redraw per display, its screen rect, in display order; no popup; a hardware cursor exactly when the probe byte is 1; an empty cursor at the origin |
| Compositing.Compositor.Schedule | src/compositor.rs:94-109 | the request merges into the redraw list, ends up covered, earlier damage stays covered, and the list grows by at most one |
| Compositing.Compositor.Resize | src/compositor.rs:86-92 | the first display takes the new size when it could be remapped, and its whole screen is scheduled without losing earlier damage |
| Compositing.Compositor.SetPopup | src/compositor.rs:121-128 | the new popup replaces the old, whose place is scheduled first, and without an old popup nothing is scheduled |
| Compositing.Compositor.UpdateCursor | src/compositor.rs:139-182 | the cursor fields take the arguments; with a software cursor the old and then the new cursor rect are scheduled, and with a hardware cursor the redraws are untouched |
| TileTree.Flip | orbital-tile/examples/example.rs:270-273 | the new fork's orientation is the other one |
| TileTree.Halved | orbital-tile/examples/example.rs:311-320 | halving keeps the other dimension and, for a non-negative size, truncates the split dimension to half, losing at most one pixel |
| TileTree.Split | orbital-tile/examples/example.rs:208-230 | a fork's entry queues nothing without `a`, its whole area for `a` alone, and otherwise `b`'s half then `a`'s half, `a` at the fork's origin, `b` beside it, both the same truncated half |
| TileTree.Sound | orbital-tile/examples/example.rs:48-82 | the tiling invariant (a predicate, no contract of its own): ids below `next_id` are taken, window and fork ids never clash, the top fork `Id(0)` exists without a parent, no fork links to `Id(0)` or to an unallocated id, and the fork links are ranked; `TileTree.Initial` establishes it and the `TileTree.…Sound` lemmas show every operation keeps it |
| TileTree.Initial | orbital-tile/examples/example.rs:61-82 | the example starts with no windows, an empty order, ids from 1 and only the top fork 0 covering the whole size, a sound tiling |
| TileTree.LastTileable | orbital-tile/examples/example.rs:252-268 | the reverse scan finds the latest window in the order that has a fork to tile into, and none when no window has |
| TileTree.Relinked | orbital-tile/examples/example.rs:278-284 | relinking replaces the child `from` by `to` in whichever slot holds it, leaves the fork unchanged otherwise and touches no other field |
| TileTree.Created | orbital-tile/examples/example.rs:238-358 | a created window takes the next id, is focused at the end of the order, and at most one new fork appears, with the id after it |
| TileTree.CreatedFresh | orbital-tile/examples/example.rs:239-240 | in a sound tiling the new id is unused by any window or fork, and exactly that id joins the windows |
| TileTree.CreatedFillsTop | orbital-tile/examples/example.rs:328-339 | when no window can be tiled with and the top fork is empty, the new window fills the top fork's area |
| TileTree.CreatedFloats | orbital-tile/examples/example.rs:339-344 | when no window can be tiled with and the top fork is taken, the new window floats at the drawn place and size and no fork changes |
| TileTree.CreatedHalves | orbital-tile/examples/example.rs:252-325 | tiling with the latest tileable window halves that window's area in its fork's orientation (or the flipped one in a fresh fork), and the new window takes the other half, beside it, as the fork's `b` |
| TileTree.CreatedSplitsFork | orbital-tile/examples/example.rs:263-294 | a full fork gets a new fork, with the id after the window's, in the tiled window's place, holding that window and the new one with the flipped orientation |
| TileTree.TiledWith | orbital-tile/examples/example.rs:263-325 | reference definition of tiling a new window with another (no contract of its own): a full fork gets a fresh flipped-orientation fork in the other window's place; `TileTree.SplitShape`, `TileTree.SplitSound` and `TileTree.JoinSound` state what it yields |
| TileTree.SplitShape | orbital-tile/examples/example.rs:263-309 | tiling into a full fork changes exactly the old fork's link and adds the new fork, and uses two ids |
| TileTree.SplitSound | orbital-tile/examples/example.rs:263-325 | tiling into a full fork keeps the tiling sound, the new fork ranked one below its parent |
| TileTree.JoinSound | orbital-tile/examples/example.rs:296-325 | tiling into a fork with room keeps the tiling sound |
| TileTree.TopSound | orbital-tile/examples/example.rs:328-339 | filling the empty top fork keeps the tiling sound |
| TileTree.FloatSound | orbital-tile/examples/example.rs:339-357 | adding a floating window keeps the tiling sound |
| TileTree.PartnerSound | orbital-tile/examples/example.rs:252-325 | creating a window beside the latest tileable one keeps the tiling sound |
| TileTree.AloneSound | orbital-tile/examples/example.rs:327-357 | creating a window when none can be tiled with keeps the tiling sound |
| TileTree.CreatedSound | orbital-tile/examples/example.rs:238-358 | `create_focused` keeps the tiling sound: ids below the counter, windows and forks apart, the top fork present and parentless, and the fork links acyclic |
| TileTree.Spliced | orbital-tile/examples/example.rs:168-196 | splicing the sibling into the parent fork removes exactly the emptied fork and keeps the windows, the order and the counter |
| TileTree.Detached | orbital-tile/examples/example.rs:115-196 | closing pops the focused id off the order and removes its window, removes no other window, adds no fork, and queues at most one resize |
| TileTree.DetachedRanked | orbital-tile/examples/example.rs:135-196 | the surgery keeps the fork links acyclic under the same ranking |
| TileTree.Laid | orbital-tile/examples/example.rs:198-235 | the worklist changes only positions and sizes: no window or fork appears or goes and no link or orientation changes |
| TileTree.LaidKeepsShallow | orbital-tile/examples/example.rs:198-235 | a fork ranked above every fork in the queue is left untouched by the worklist |
| TileTree.LaidStepFork | orbital-tile/examples/example.rs:203-230 | one fork entry places the fork, queues its children's halves, keeps the ranking and lightens the queue |
| TileTree.LaidWindow | orbital-tile/examples/example.rs:200-202 | a window entry sets that window's position and size |
| TileTree.LaidFork | orbital-tile/examples/example.rs:203-230 | a fork entry places the fork and then lays its children's halves |
| TileTree.LaidTwoWindows | orbital-tile/examples/example.rs:198-202 | two window entries set both windows to their places |
| TileTree.Closed | orbital-tile/examples/example.rs:115-236 | `close_focused` pops the focused id and removes its window, changes no other window's presence, adds no fork and keeps the counter; with no window focused nothing changes |
| TileTree.DetachedSound | orbital-tile/examples/example.rs:115-196 | the surgery keeps the tiling sound |
| TileTree.LaidSound | orbital-tile/examples/example.rs:198-235 | the worklist keeps the tiling sound |
| TileTree.ClosedSound | orbital-tile/examples/example.rs:115-236 | `close_focused` keeps the tiling sound |
| TileTree.DetachedBeside | orbital-tile/examples/example.rs:136-186 | closing a window beside a sibling queues the sibling at the fork's area; with a parent fork the fork goes and the sibling takes its place as the parent's child; the top fork keeps the sibling as its `a` |
| TileTree.ClosedSplices | orbital-tile/examples/example.rs:136-196 | after closing, the sibling hangs where its fork hung, or stays alone in the top fork |
| TileTree.ClosedSiblingTakesPlace | orbital-tile/examples/example.rs:147-235 | after closing, the sibling, window or fork, covers exactly the area its fork covered |
| TileTree.ClosedHalves | orbital-tile/examples/example.rs:198-235 | a sibling fork holding two windows has them re-split over the old fork's area, `b` in the second half and `a` in the first |
| TileTree.Distance | orbital-tile/examples/example.rs:406-461 | a window counts in a direction exactly when it overlaps on the other axis and lies in that direction, with space or overlapping; its distance is the gap, 0 when overlapping |
| TileTree.Nearest | orbital-tile/examples/example.rs:387-466 | the scan picks a candidate at the least distance, the latest among equals, and none when there is no candidate |
| TileTree.NearestStep | orbital-tile/examples/example.rs:462-465 | each step takes the window when it is a candidate no farther than the best so far |
| TileTree.NearestOverlaps | orbital-tile/examples/example.rs:400-459 | the window picked is another window that overlaps the focused one on the axis across the direction |
| TileTree.Focused | orbital-tile/examples/example.rs:377-476 | focusing changes only the order |
| TileTree.MovedToEnd | orbital-tile/examples/example.rs:472-475 | `retain` then `push` leaves the id last and exactly once, the other ids in their order and no other count changed |
| TileTree.FocusedMoves | orbital-tile/examples/example.rs:377-476 | without a nearest window the state is unchanged; otherwise the picked window is last exactly once, the others keep their order |
| TileExample.Example.constructor | orbital-tile/examples/example.rs:61-82 | the object starts as `TileTree.Initial`, sound |
| TileExample.Example.FindTileable | orbital-tile/examples/example.rs:252-268 | the reverse loop finds `TileTree.LastTileable` |
| TileExample.Example.TileWith | orbital-tile/examples/example.rs:263-325 | the tiling branch leaves the object as `TileTree.TiledWith` says |
| TileExample.Example.PlaceUntiled | orbital-tile/examples/example.rs:327-357 | with no window to tile with, the object becomes `TileTree.Created` of the old state |
| TileExample.Example.CreateFocused | orbital-tile/examples/example.rs:238-358 | the object becomes `TileTree.Created` of the old state and stays sound |
| TileExample.Example.Detach | orbital-tile/examples/example.rs:115-196 | the surgery leaves the object and the queued resizes as `TileTree.Detached` says |
| TileExample.Example.PlaceFork | orbital-tile/examples/example.rs:203-230 | a fork entry moves the fork to its place and returns `TileTree.Split` of it |
| TileExample.Example.Lay | orbital-tile/examples/example.rs:198-235 | the worklist loop leaves the windows and forks `TileTree.Laid` describes, and terminates because each fork entry is heavier than the halves it queues |
| TileExample.Example.CloseFocused | orbital-tile/examples/example.rs:115-236 | the object becomes `TileTree.Closed` of the old state and stays sound |
| TileExample.Example.FindClosest | orbital-tile/examples/example.rs:387-466 | the loop returns the window `TileTree.Nearest` picks, and none exactly when it picks none |
| TileExample.Example.FocusDirection | orbital-tile/examples/example.rs:377-476 | the object becomes `TileTree.Focused` of the old state, soundness kept |

## Left out

- Threads, the event-queue main loops, daemonizing and spawning the login process (`src/main.rs`, `src/lib.rs`, the `run` loops of `src/core/mod.rs` and `orbital-core/src/lib.rs`): these are concurrency and I/O. Only the `todo` filter inside them is modelled.
- `src/socket.rs`, `src/core/display.rs` and `orbital-core/src/display.rs` (file handles, mmap and munmap): these are I/O. A display is its place, size and scale.
- `src/widget/fps.rs` (wall clock, fonts), `examples/multiple.rs` (a client demo) and `src/theme.rs` (colour constants): not part of this model.
- `orbital-tile/src/lib.rs`: its plain type declarations are written as datatypes in `TileTree`.
- Font rendering (`render_title`, `draw_title`, `draw_window_list`, `draw_volume_osd`) and the `redraw` painting loop of `src/scheme.rs`: pixel output through fonts is not modelled. A window's title is kept as a string.
- The display sync writes, the hardware-cursor commands and their timer (`src/compositor.rs:184-282`): these are device I/O. `Compositing.Compositor.UpdateCursor` models only the software-cursor redraws and the cursor fields.
- `Compositing.Compositor.constructor`: the one-byte read from the first display is taken as the `probe` parameter (0 when the read fails).
- `Compositing.Compositor.Resize` and `SchemeHandlers.ScreenResized`: whether remapping the display at the new size succeeds is an input (`remapped`, `Surroundings.remapOk`); the mapping itself is not modelled. The display's new size is not carried into later events, since the displays belong to the event loop and are handed to each event.
- The x86 copy helpers of `src/image.rs` and `Image::from_path`/`from_path_scale` image decoding: assembly and file I/O. `CoreImage.ScaleUp` takes the decoded pixels as input and models only the replication loop.
- `audio:volume` file I/O in `volume`: the text read and the success of the write are inputs of `SchemeState.VolumeSet`. Only the clamp and toggle arithmetic is modelled.
- `should_delay` and the packet handling run inside the `todo` loop: they are parameters of `Protocol.Orbital.RetryTodo`.
- Cursor images: their sizes are inputs (`CursorSizes`). The images are not loaded.
- `fmap`/`funmap` and raw-pointer `read_to_slice`: memory mapping is not modelled. `Protocol.MmapPrep` models only the size check.
- The RNG of the tiling example: `TileExample.Example.CreateFocused` takes the drawn size and place as arguments. The panic of `gen_range` on an empty range is not modelled. Nor are the tile colours, `draw`, `dump_tree` or the orbclient window.
- `TileTree.Closed` and `TileTree.Laid` are ghost functions, because their termination measure is the ghost ranking. `TileExample.Example.Lay` computes the same result by the worklist loop.
- Integer widths: `i32`, `u32`, `i64` and `usize` arithmetic is on unbounded integers. Overflow of pixel-count products, positions and sizes is not modelled. The one wrap-around the source handles on purpose, `next_id` passing `isize::MAX`, is modelled (`SchemeHandlers.NextIdAfterSpec`).
- Negative sizes: window and image sizes are `nat` throughout, where the source's `i32` could be negative.
- WindowModel.Window.SetSize: takes only non-negative sizes, where the source accepts any `i32`.
- `Vec::retain`, `VecDeque::remove` and `sort_by` are modelled as their results on sequences (`RemoveAll`, `RemoveAt`, `ZSort.SortDesc`), not as the library's in-place algorithms.
- SchemeHandlers.Dispatched: asks for at least one display for every input. In the source only a display resize, which indexes the first display (`src/core/mod.rs:297-301`), and the maximize button, which indexes the display chosen (`src/scheme.rs:1154-1155`), need one; both panic without one.
- SchemeServer.OrbitalScheme.Event: asks for at least one display, as `SchemeHandlers.Dispatched` does.
