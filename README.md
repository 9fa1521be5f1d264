# Educational song generator: verified model of the main loop's logic

The application is a single pygame script. The user types a topic and picks
one of two modes ("EduPoem" or "GenZ Type Shii"). Pressing Enter starts a
background request to a text-generation model. The lines that come back are
word-wrapped into a scrollable output panel and read aloud. This project
models the deterministic part of `main.py` in Dafny:

- `wrap_text`, the greedy word-wrapper (module `WordWrap`, file `wrap.dfy`).
  The rendered width of a string is an abstract function `measure: string -> int`.
  The method `WrapText` runs the source's loop. It is proved to return exactly
  `Wrap`, a fold over the words, and the wrapper's properties are lemmas
  about `Wrap`.
- The Python string builtins this code relies on: `str.strip`, `str.split(' ')`
  and `s[:-1]` (module `Text`, file `text.dfy`). `Text.Join`, a single-space
  `' '.join`, is the specification counterpart of `split(' ')`: the split is
  characterised by joining its pieces back, and the wrapper's coverage
  property is stated with it.
- The layout of the response (module `Layout`, file `layout.dfy`). `RenderLines`
  runs the loop that builds `rendered_lines` and recomputes `content_height`.
  It is proved against `Segments`, the concatenated wrapped segments of the
  non-blank lines.
- The scroll arithmetic (module `Scroll`, file `scroll.dfy`): Up, Down and the
  mouse wheel. The clamp is modelled exactly as written. A corrected clamp sits
  beside it (see Findings).
- The button and input-box rectangles clicks are checked against (module
  `Geometry`, file `geometry.dfy`).
- The main loop's global state as a class, `Ui.App` (file `ui.dfy`). It has one
  method per event type (close, click, key, wheel), plus the per-frame cursor
  blink and the per-frame layout. Starting a generator thread is modelled as
  the `Request` that `KeyDown` returns. `loading` is written only by those
  threads, so apart from its initial value the model only reads it. `verseLines` is
  replaced by the threads, which the model does not do, and cleared by an
  accepted Enter, which `KeyDown` does.

## Model

| member | source | states |
|---|---|---|
| Text.Strip | main.py:207 | The stripped topic is empty exactly when every character is whitespace; a non-empty result starts and ends with a non-whitespace character |
| Text.StripSlices | main.py:273-275 | `s` is whitespace, then `strip(s)`, then whitespace, so strip removes characters only at the two ends |
| Text.Split | main.py:124 | `split(' ')` yields at least one piece, no piece contains a space, and joining the pieces with single spaces gives back the input |
| Text.SplitJoin | main.py:124 | `split(' ')` inverts `' '.join` on a non-empty list of space-free words |
| Text.DropLast | main.py:216 | `text[:-1]` leaves `""` unchanged; otherwise appending the dropped last character restores the text |
| WordWrap.WrapText | main.py:123-143 | The loop over the words returns exactly the greedy fold `Wrap` of the text |
| WordWrap.LineShape | main.py:130-137 | Every output line measured within the width when last accepted, is a single input word placed alone after an overflow, or is the empty line |
| WordWrap.LineCount | main.py:128-141 | There are never more output lines than words plus one |
| WordWrap.EmptyText | main.py:124-142 | Empty input gives `[]` when the empty string fits, and `[""]` when it does not |
| WordWrap.FirstLineEmpty | main.py:128-137 | The first output line is `""` when the first word alone is too wide; for well-spaced text, only then |
| WordWrap.Coverage | main.py:124-141 | For words separated by single spaces, joining the non-empty output lines with single spaces reproduces the input: same words, same order |
| WordWrap.Greedy | main.py:130-137 | Whenever a new line starts, the previous line plus a space plus the new line's first word measured wider than the limit |
| WordWrap.Overlong | main.py:128-141 | Text that neither starts nor ends with a space, inner runs of spaces included, gives at least one line; a single line is the whole text and fits, so text wider than the limit always gives at least two lines |
| Layout.RenderLines | main.py:268-279 | The k-th rendered segment is the k-th wrapped segment of the non-blank stripped lines, placed at y = output_y + scroll_offset + 23 + 26k; content_height = 26 × the number of segments |
| Layout.PlaceSegments | main.py:276-279 | The inner loop appends one line's wrapped segments after those already placed, each one line height (26 px) below the previous, and content_height grows by 26 per segment |
| Layout.BlankLineIgnored | main.py:272-273 | Removing a blank (all-whitespace) response line changes neither the segments nor content_height |
| Layout.LineSegmentsOverlong | main.py:273-275 | Every non-blank response line gives at least one segment; a lone segment is the whole stripped line and fits the wrap width (580 px), so a stripped line wider than that always gives at least two segments |
| Layout.LineSegmentsCover | main.py:273-275 | A line's segments, joined with single spaces, give its stripped text back, provided the stripped text is well spaced |
| Scroll.ScrollUp | main.py:217-218 | Up moves the offset by +30 but never above 0, and sets no lower bound |
| Scroll.Clamp | main.py:221 | The literal clamp's result is ≥ content_height − output_height, and it is ≤ 0 only when the content fits in the panel |
| Scroll.ScrollDown | main.py:219-221 | Down (−30, then the clamp) keeps the offset ≥ content_height − output_height, and ≤ 0 only when the content fits |
| Scroll.Wheel | main.py:225-227 | The wheel (+30 per notch, then the clamp) has the same bounds as Down |
| Scroll.DownOnTallContent | main.py:219-221 | Down pressed at offset 0 with 520 px of content gives offset +240 |
| Scroll.ClampPushesTallContentDown | main.py:221 | For content taller than the panel, every offset the literal clamp yields is positive |
| Scroll.ClampIntended | main.py:221 | The corrected clamp keeps the offset in [min(0, output_height − content_height), 0], and the panel stays filled as far as the content allows |
| Scroll.ClampIntendedStable | main.py:227 | The corrected clamp is idempotent |
| Geometry.ButtonsDisjoint | main.py:154-166 | The two mode buttons are side by side inside the window, 10 px apart; no point hits both, and neither overlaps the input box |
| Ui.App.constructor | main.py:43-67 | The initial state: empty topic, no focus, EduPoem mode, not loading, no lines, offset 0, content height 0, cursor timer 0, cursor shown |
| Ui.App.Quit | main.py:190-191 | The close event ends the loop |
| Ui.App.MouseDown | main.py:193-203 | Focus is set exactly when the click is inside the input box; a click on a mode button selects that mode; otherwise the mode is unchanged |
| Ui.App.KeyDown | main.py:205-223 | Without focus, nothing changes. An accepted Enter (not loading, non-blank topic) clears topic, lines and offset and launches one request with the old topic and the selected mode. A rejected Enter appends the key's character. Backspace drops the last character. Up and Down scroll |
| Ui.App.MouseWheel | main.py:225-227 | The wheel applies to the offset whether or not the input box has focus |
| Ui.App.Tick | main.py:230-233 | With non-negative elapsed time, the timer stays in [0, 500), and the cursor flips exactly on the frames where the accumulated time reaches 500 |
| Ui.App.Render | main.py:265-279 | While loading, nothing is laid out and content_height is kept; otherwise it is the layout of `RenderLines` |

## Findings

| source | as written | input that shows it | evidently intended | confidence | as-written member | corrected member |
|---|---|---|---|---|---|---|
| main.py:221 | `max(min(offset, 0), content_height - output_height)`: the lower bound is the content's overflow with a positive sign | 20 wrapped lines (content_height 520, panel 280), offset 0, press Down: the offset becomes +240 and the text moves down out of view instead of up | keep the offset in [min(0, output_height − content_height), 0], i.e. `max(min(offset, 0), min(0, output_height - content_height))` | high (not executed) | Scroll.ClampPushesTallContentDown | Scroll.ClampIntended |

The same expression appears at main.py:227 for the wheel. With content shorter
than the panel, the literal bound is negative. The text can then be scrolled
up by as much as the empty space below it. `Ui.App` keeps the literal clamp
(`ScrollDown`, `Wheel`), because it models the loop as written.
`Scroll.ClampIntended` is the corrected definition, with the intended bounds
proved in its contract.

Two further facts about the code:

- `wrap_text` places a word wider than the panel alone on its line, so a
  rendered segment can be wider than the panel (`WordWrap.LineShape`).
- The scroll offset can leave [min(0, output_height − content_height), 0]:
  see the finding about main.py:221 above.

## Left out

- pygame drawing, fonts, window, display update and frame clock. Rendered width is the abstract `measure` parameter; the clock's elapsed milliseconds are `Tick`'s parameter.
- The spinner (main.py:70-78, 186, 266): floating-point trigonometry, drawing only.
- The generator functions and prompts (main.py:86-120), `response.text.strip().splitlines()`, and speech (main.py:81-83). They are calls to a remote service and a speech engine. A started thread appears only as the `Request` that `KeyDown` returns.
- Threads and the race between overlapping requests (main.py:211-213). `loading` is a plain field that, after the constructor, the model only reads. The threads' replacement of `verseLines` is not modelled; the clear on an accepted Enter (main.py:208) is, in `KeyDown`.
- `input_color`, hover and selected button colours, title and label text (main.py:203, 168-180, 236-262): visual only.
- The input box is drawn 23 px lower (main.py:244-248) than the rectangle that clicks are checked against (main.py:43, 199). The model uses the rectangle clicks are checked against. Drawing is not modelled.
- The dispatch on `event.type` (main.py:189-193) is the choice of which `Ui.App` method to call. There is no separate member for it.
- `event.unicode` is whatever pygame reports for the key: a parameter of `KeyDown`.
- Text.IsSpace follows Python's `str.isspace` for the characters it lists. Dafny characters are Unicode scalar values, so strings holding lone surrogates are not modelled.
- WordWrap.Coverage: requires well-spaced text (no empty piece from `split(' ')`). `line.strip()` removes only outer whitespace, so a response line with a double space inside can lose a space at a line break.
- WordWrap.Greedy: requires well-spaced text. With empty pieces, a line can follow an empty word, not the word that overflowed.
- Layout.LineSegmentsCover: requires the stripped line to be well spaced, for the same reason as WordWrap.Coverage.
