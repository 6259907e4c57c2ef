# szb display engine, in Dafny

szb drives a 4×20 character LCD (an HD44780-style panel) from a small board. This
project models four parts of it:

- **The frame engine** (`internal/display/buffer.go`). It keeps an 80-byte frame and
  fills it on every `NextRender` under an *overflow style*:
  - wrap-span (`OfWrapSpanLines`) spreads one 80-character text over the four rows;
  - per-line (`OfCustomStylePerLine`) gives each row a renderer of its own: trim
    (`OfTrimLine`), an endless marquee (`OfEndlessMarquee`) or a cycling marquee that
    slides out and back (`OfCycleMarquee`);
  - the per-line renderers are picked by a flag such as `t,em:3,cm,t`, where `:3` is
    a render rate that holds each marquee step for 3 extra frames.

  The panel's memory puts row 2 at offset 40 and row 3 at offset 20, so the engine
  writes rows to offsets 0, 40, 20 and 60.
- **The glyph map** (`internal/display/charmap.go`). It rewrites the UTF-8 bytes of
  katakana and a few symbols into the panel's one-byte character codes.
- **The older engine** in `cmd/szb/main.go`. It has the same styles without render
  rates or the glyph map, and with a different cycling marquee.
- **Two text sources:**
  - `humanreadable.Second.String` writes durations as `1d2h3m4s`;
  - `sysstats.DateTime.String` switches between a date line and a day-of-week line
    by counting its calls.

How the model is built:

- **Text.** Strings are sequences of Unicode scalar values (`Utf8.Rune`). Their bytes
  are given by a UTF-8 encoder (section 3 of RFC 3629). So Go's `%-20s`, which pads
  by code points, and `len`, which counts bytes, are kept apart as the source keeps
  them.
- **Renderers.** Every renderer is a pure state plus step functions (modules `Lines`
  and `Legacy`), where the properties are proved. Classes over an `array<Byte>` frame
  follow them, and each method is proved against its step function (modules
  `Renderers`, `Frame` and `LegacyDisplay`).
- **Panics.** A slice that panics in Go is an explicit `Panic` outcome of an
  "as written" step (modules `CycleAsWritten` and `Legacy`). The classes use the
  corrected steps; see Findings.
- **Integer division.** Go's truncating `/` and `%` are written out in `GoInt`.
- **Library calls.**
  - `strings.Split` is modelled in `Styles`.
  - `strconv.Atoi` and `%d` are modelled in `Decimal`, with Atoi's 64-bit range check.

## Model

| member | source | states |
|---|---|---|
| Utf8.EncodeRune | internal/display/charmap.go:90 | the UTF-8 form of one code point: 1–4 bytes, a lead byte announcing the length, continuation bytes after it, and the length chosen by the code point's range |
| Utf8.DecodeEncode | internal/display/charmap.go:90 | decoding the bytes of a code point gives it back |
| Utf8.EncodeInjective | internal/display/charmap.go:90 | two code points with the same bytes are equal |
| Utf8.EncodePrefixFree | internal/display/charmap.go:90 | the encoding of one code point is never a proper prefix of text starting with another, so a byte search for a glyph key matches only that glyph |
| Utf8.EncodeAppend | internal/display/charmap.go:90 | `[]byte(a + b)` is `[]byte(a)` followed by `[]byte(b)` |
| Utf8.EncodeAscii | internal/display/buffer.go:226 | text below 0x80 is its own byte string |
| Utf8.PadRight | internal/display/buffer.go:226 | `%-Ns` keeps the text and appends spaces up to N code points, and never cuts a longer text |
| CharMap.TableWellFormed | internal/display/charmap.go:14-86 | every code lies in 0xA2..0xDF; codes and glyphs are pairwise distinct; every glyph is a non-ASCII code point of the Basic Multilingual Plane, so its key is 2–3 bytes, all at least 0x80 |
| CharMap.CodeAt | internal/display/charmap.go:14-86 | the code of each row, by position: 0xA2..0xDF in order, skipping 0xA4, 0xA5 and 0xB0 |
| CharMap.OrdinalLast | internal/display/charmap.go:14-86 | º is declared after every other glyph |
| CharMap.LookupCode | internal/display/charmap.go:14-86 | every looked-up code lies in 0xA2..0xDF |
| CharMap.CodesOrdered | internal/display/charmap.go:14-86 | the table is declared in increasing code order |
| CharMap.CollidingRows | internal/display/charmap.go:14-86 | ツ maps to 0xC2 and コ to 0xBA, which together are the key of º (C2 BA); every other key is 3 bytes with a lead byte ≥ 0xE0 |
| CharMap.FindRow | internal/display/charmap.go:14-86 | the search returns a row holding the glyph, or None exactly when no row from `from` on holds it |
| CharMap.LookupIsTable | internal/display/charmap.go:14-86 | Lookup(c) == Some(b) iff the table has the entry (c, b) |
| CharMap.LookupRow | internal/display/charmap.go:14-86 | each row's glyph is looked up to that row's code |
| CharMap.LookupAscii | internal/display/charmap.go:14-86 | no ASCII character is mapped |
| CharMap.LookupColliding | internal/display/charmap.go:40-50 | only ツ maps to 0xC2 and only コ to 0xBA |
| CharMap.ReplaceAll | internal/display/charmap.go:93 | `bytes.ReplaceAll` with a one-byte value never lengthens its input and shortens it when a key of ≥ 2 bytes matches at the start |
| CharMap.SkipPrefix | internal/display/charmap.go:93 | ReplaceAll passes over a prefix in which no key match starts |
| CharMap.ReplaceAllAscii | internal/display/charmap.go:93 | ReplaceAll leaves ASCII bytes alone for every table key |
| CharMap.ReplaceRuneWithLCDCharMap | internal/display/charmap.go:89-97 | the fold of ReplaceAll over the map in a given iteration order; the result is never longer than the input |
| CharMap.AsciiUnchanged | internal/display/charmap.go:89-97 | ASCII input comes back unchanged, in any order |
| CharMap.FoldAppend | internal/display/charmap.go:92-94 | folding over `a + b` is folding over `a` and then over `b` |
| CharMap.MapGlyphsLength | internal/display/charmap.go:89-97 | the per-code-point glyph map (the corrected reading) is never shorter than the number of code points nor longer than the UTF-8 bytes |
| CharMap.MapGlyphsAppend | internal/display/charmap.go:89-97 | the glyph map distributes over concatenation |
| CharMap.MapGlyphsAscii | internal/display/charmap.go:89-97 | ASCII text is its own glyph-mapped form |
| CharMap.PartialNone | internal/display/charmap.go:89-97 | with no glyph replaced yet the bytes are plain UTF-8 |
| CharMap.PartialCovering | internal/display/charmap.go:89-97 | once every glyph of the table is replaced, the result is the glyph map |
| CharMap.ReplaceStep | internal/display/charmap.go:93 | one ReplaceAll replaces exactly the occurrences of its glyph, unless it is º and ツコ has already become C2 BA |
| CharMap.FoldPartial | internal/display/charmap.go:92-94 | the fold over an order replaces exactly the glyphs the order visits, for text without ツコ or an order without º |
| CharMap.FoldIsGlyphMap | internal/display/charmap.go:89-97 | for every iteration order of the map, the source's fold equals the glyph map on text that has no ツ directly followed by コ |
| CharMap.DeclarationOrder | internal/display/charmap.go:14-86 | the declaration order visits every row once |
| CharMap.OrdinalFirst | internal/display/charmap.go:86 | visiting º first and then the rest is a valid map order |
| CharMap.FoldOrderMatters | internal/display/charmap.go:89-97 | ツコ becomes the single byte 0xDF (º) in declaration order but C2 BA when º comes first, and a second pass then changes it again: the result depends on Go's map order |
| CharMap.PaddedLineShrinks | internal/display/buffer.go:226 | "ツコ" padded to 20 code points maps to 19 bytes in declaration order, so the `line[0:20]` that follows would be out of range |
| CharMap.PartialAppend | internal/display/charmap.go:89-97 | partial replacement distributes over concatenation |
| CharMap.PartialAscii | internal/display/charmap.go:89-97 | partial replacement leaves ASCII text alone |
| Decimal.Digits | internal/humanreadable/duration.go:19 | the decimal digits of n, with no leading zero |
| Decimal.Itoa | internal/humanreadable/duration.go:19 | `%d`: a leading '-' exactly for negative numbers |
| Decimal.ValueDigits | internal/humanreadable/duration.go:19 | reading the printed digits of n gives n back |
| Decimal.ScanDigitsExact | internal/display/buffer.go:30 | the digit scanner succeeds exactly on all-digit strings whose value fits 64 bits, and returns that value |
| Decimal.Atoi | internal/display/buffer.go:30 | `strconv.Atoi` returns only values in the int64 range |
| Decimal.AtoiExact | internal/display/buffer.go:30 | Atoi succeeds exactly on an optionally signed, non-empty digit string whose value lies in the int64 range, and then returns that value |
| Decimal.AtoiItoa | internal/display/buffer.go:30 | Atoi reads back every printed int64 |
| Styles.Split | internal/display/buffer.go:39 | `strings.Split` returns one more field than there are separators, and no field contains a separator |
| Styles.JoinSplit | internal/display/buffer.go:39 | joining the fields back with the separator gives the input |
| Styles.SplitJoin | internal/display/buffer.go:39 | splitting a join of separator-free fields gives them back |
| Styles.ParseFieldRefuses | internal/display/buffer.go:44-64 | a field is refused as an invalid style for its line exactly when it is not `t` and starts with neither `em` nor `cm`; an accepted field can fail only on its rate |
| Styles.ParseFieldsExact | internal/display/buffer.go:44-67 | the loop succeeds iff every field does, and then holds their kinds in order; otherwise it returns the first failing field's error |
| Styles.ParseStylesExact | internal/display/buffer.go:36-68 | other than 4 fields gives ErrInvalidOverflowStyle; success iff all 4 fields parse; an invalid-style error for line k names the first refused field |
| Styles.TryParseCustomStyle | internal/display/buffer.go:36-68 | the method's loop returns exactly ParseStyles(flag) |
| Styles.FailureSticks | internal/display/buffer.go:49-58 | once a field fails, later fields do not change the result |
| Styles.RateField | internal/display/buffer.go:27-64 | `em:N` and `cm:N` give the marquee at rate N for every int64 N |
| Styles.ExampleRate | internal/display/buffer.go:27-34 | `em:3` is an endless marquee at rate 3 |
| Styles.ExampleOddRates | internal/display/buffer.go:27-34 | negative and zero rates are accepted as written |
| Styles.ExampleDefaults | internal/display/buffer.go:27-34 | without exactly one `:` the rate is 1 (`emx`, `em:1:2`) |
| Styles.ExampleErrors | internal/display/buffer.go:27-68 | `em:` fails on its rate, `x` is invalid for its line, and three fields are an overflow-style error |
| Window.Blit | internal/display/buffer.go:122 | `copy(buf[off:off+20], src)` writes the first min(len, 20) bytes at `off` and leaves every other byte |
| Window.BlitNothing | internal/display/buffer.go:181 | copying nothing changes nothing |
| Window.BlitFull | internal/display/buffer.go:220 | a source of ≥ 20 bytes fills the window and nothing outside it |
| Window.BlitCommute | internal/display/buffer.go:248-255 | writes to disjoint rows commute |
| Window.CopyInto | internal/display/buffer.go:122 | the array loop performs Blit |
| Lines.Formatted | internal/display/buffer.go:226 | `ReplaceRuneWithLCDCharMap(fmt.Sprintf("%-20s", line))` is at least 20 bytes |
| Lines.FormattedAscii | internal/display/buffer.go:226 | for ASCII text it is the padded text itself |
| Lines.TrimSet | internal/display/buffer.go:225-228 | a set stores the formatted line and marks it changed |
| Lines.TrimRender | internal/display/buffer.go:218-223 | a changed line writes 20 bytes once and clears the flag; otherwise nothing is written |
| Lines.TrimShowsOnce | internal/display/buffer.go:218-228 | after a set the next render shows the first 20 formatted bytes, and the one after writes nothing and changes nothing |
| Lines.TrimAscii | internal/display/buffer.go:218-228 | for ASCII text trim shows the text padded or cut to 20 |
| Lines.EndlessSet | internal/display/buffer.go:133-143 | a set keeps the marquee valid and the first set starts it |
| Lines.EndlessSetKeeps | internal/display/buffer.go:139-142 | a later set only replaces the queued line; the first one also shows it at the current position |
| Lines.EndlessSetAscii | internal/display/buffer.go:134-138 | a text of 20 bytes or more is queued with " . " appended, a shorter one padded to 20 |
| Lines.EndlessWindow | internal/display/buffer.go:115-122 | the bytes shown are `(line + nextLine)[pos..pos+20]`: the line, then the queued line as trailer |
| Lines.EndlessAdvance | internal/display/buffer.go:114-130 | one step writes exactly 20 bytes and keeps the marquee valid |
| Lines.EndlessScrollsByOne | internal/display/buffer.go:124 | each step shifts the shown window left by one byte |
| Lines.EndlessAdvancesAdd | internal/display/buffer.go:124-128 | a + b steps are a steps, then b |
| Lines.EndlessForward | internal/display/buffer.go:124-128 | n steps on a line that queues itself move pos by n, wrapping at the line's length |
| Lines.EndlessFullTurn | internal/display/buffer.go:124-128 | after as many steps as the line has bytes the marquee is back where it started |
| Lines.EndlessPeriodic | internal/display/buffer.go:115-128 | the shown window repeats with period len(line) |
| Lines.EndlessCadence | internal/display/buffer.go:109-114 | after a step, `rate` further renders write nothing and only count; the next one steps |
| Lines.RendersStep | internal/display/buffer.go:108-131 | n + 1 renders are n renders and then one more |
| Lines.EndlessUngated | internal/display/buffer.go:109 | with rate ≤ 0 every render steps |
| Lines.CycleSet | internal/display/buffer.go:199-209 | a set queues the formatted line, marks it changed, and the first set starts it |
| Lines.CycleWindow | internal/display/buffer.go:176-181 | the bytes shown are `line[pos..pos+20]` |
| Lines.CycleAdvance | internal/display/buffer.go:163-197 | the corrected step keeps pos within the line (see Findings) |
| Lines.CycleWindowFull | internal/display/buffer.go:176-181 | outside the snap case a step writes 20 bytes |
| Lines.CycleSnap | internal/display/buffer.go:165-174 | a changed 20-byte line is written once and becomes the line; the render after writes and changes nothing |
| Lines.CycleAdvancesAdd | internal/display/buffer.go:176-194 | a + b steps are a steps, then b |
| Lines.CycleForward | internal/display/buffer.go:183-187 | sliding left, n steps advance pos by n while a whole window fits |
| Lines.CycleBackward | internal/display/buffer.go:188-193 | sliding right, n steps take pos back by n; reaching 0 takes up the queued line going left |
| Lines.CycleRoundTrip | internal/display/buffer.go:176-194 | a line of L > 20 bytes goes out and back in 2L − 39 steps, then shows the queued line from 0 |
| Lines.CycleFitsThenLong | internal/display/buffer.go:176-194 | a 20-byte line is shown whole; two steps later a longer queued line starts at 0 |
| Lines.CycleRendersStep | internal/display/buffer.go:157-197 | n + 1 renders are n renders and then one more |
| Lines.CycleCadence | internal/display/buffer.go:158-163 | after a step, `rate` renders only count, and the next one steps |
| Lines.InitLine | internal/display/buffer.go:46-61 | the renderer each parsed kind selects starts valid |
| Lines.LineSet | internal/display/buffer.go:133-228 | any set leaves the renderer valid and ready to render |
| Lines.LineRender | internal/display/buffer.go:108-223 | any render keeps the renderer valid and ready |
| Lines.LineRenderWidth | internal/display/buffer.go:108-223 | no renderer writes more than one 20-byte row |
| CycleAsWritten.CycleAdvanceAsWritten | internal/display/buffer.go:163-197 | the source's step panics exactly when no 20-byte line is queued and pos lies outside 0..len(line) |
| CycleAsWritten.CycleRenderAsWritten | internal/display/buffer.go:157-163 | a gated render only counts |
| CycleAsWritten.AsWrittenAgrees | internal/display/buffer.go:163-197 | away from the two faulty cases the source's step is the corrected step |
| CycleAsWritten.AsWrittenDiffers | internal/display/buffer.go:165-190 | the two cases: a snap keeps a stale pos, and going back from 0 gives −1 |
| CycleAsWritten.RunCons | internal/display/buffer.go:157-209 | a run of calls is its first call, then the rest |
| CycleAsWritten.RunFixedCons | internal/display/buffer.go:157-209 | the same for the corrected marquee |
| CycleAsWritten.RunForward | internal/display/buffer.go:183-187 | n renders while sliding left are n steps for both marquees |
| CycleAsWritten.StalePositionPanics | internal/display/buffer.go:165-181 | on a fresh marquee at rate 0 (`cm:0`), a long line scrolled 21 times, then a 20-byte line and a set, panics on `line[21:20]` |
| CycleAsWritten.StalePositionFixed | internal/display/buffer.go:165-181 | on the same calls the corrected marquee shows the 20-byte line from 0 |
| CycleAsWritten.NegativePositionPanics | internal/display/buffer.go:188-190 | on a fresh marquee at rate 0 (`cm:0`), a 20-byte line, then a longer one, reaches pos −1 and panics |
| CycleAsWritten.NegativePositionFixed | internal/display/buffer.go:188-193 | the corrected marquee takes up the longer line at 0 going left |
| CycleAsWritten.RenderBeforeSetPanics | internal/display/buffer.go:188-190 | at rate 0 (`cm:0`), two renders before any set panic: the second slices `line[-1:0]`; the corrected marquee stays at 0 |
| CycleAsWritten.AsciiInstances | internal/display/buffer.go:200 | both counterexamples are reached with ASCII text ("ab" and 41 letters) |
| Renderers.TrimLine.NextRender | internal/display/buffer.go:218-223 | state and frame change as TrimRender says, only in the row's window |
| Renderers.TrimLine.SetCurrentLine | internal/display/buffer.go:225-228 | the state becomes TrimSet's |
| Renderers.EndlessMarquee.NextRender | internal/display/buffer.go:108-131 | state and frame change as EndlessRender says |
| Renderers.EndlessMarquee.Advance | internal/display/buffer.go:114-130 | an ungated step changes state and frame as EndlessAdvance says |
| Renderers.EndlessMarquee.SetCurrentLine | internal/display/buffer.go:133-143 | the state becomes EndlessSet's |
| Renderers.CycleMarquee.NextRender | internal/display/buffer.go:157-197 | state and frame change as the corrected CycleRender says |
| Renderers.CycleMarquee.Snap | internal/display/buffer.go:165-174 | with a 20-byte line queued, a step changes state and frame as the corrected CycleAdvance says |
| Renderers.CycleMarquee.Slide | internal/display/buffer.go:176-194 | otherwise a step changes state and frame as CycleAdvance says |
| Renderers.CycleMarquee.SetCurrentLine | internal/display/buffer.go:199-209 | the state becomes CycleSet's |
| Renderers.LineRenderer.NextRender | internal/display/buffer.go:73 | whichever renderer it is, it renders as LineRender says |
| Renderers.LineRenderer.SetCurrentLine | internal/display/buffer.go:74 | whichever renderer it is, it is set as LineSet says |
| Renderers.MakeRenderer | internal/display/buffer.go:46-61 | a fresh renderer in InitLine's state for the parsed kind |
| Frame.Interleave | internal/display/buffer.go:289-298 | bytes 20k..20k+20 of the text land in row k, at offsets 0, 40, 20, 60 |
| Frame.InterleaveTwice | internal/display/buffer.go:291-298 | the row layout undoes itself (rows 2 and 3 swap) |
| Frame.Rows | internal/display/buffer.go:248-255 | the four row writes give an 80-byte frame |
| Frame.RowsSeparate | internal/display/buffer.go:248-255 | each byte of row k comes from renderer k or keeps its old value |
| Frame.RowsFull | internal/display/buffer.go:248-298 | four full rows give the same frame as wrap-span on their concatenation |
| Frame.RenderPair | internal/display/buffer.go:248-255 | two renderers on disjoint windows do not disturb each other |
| Frame.PerLine.NextRender | internal/display/buffer.go:248-255 | each renderer steps as LineRender says and the frame becomes Rows of their writes |
| Frame.PerLine.SetLine1 | internal/display/buffer.go:257-259 | only renderer 1 is set |
| Frame.PerLine.SetLine2 | internal/display/buffer.go:261-264 | only renderer 2 is set, and no error is returned |
| Frame.PerLine.SetLine3 | internal/display/buffer.go:266-269 | only renderer 3 is set, and no error is returned |
| Frame.PerLine.SetLine4 | internal/display/buffer.go:271-274 | only renderer 4 is set, and no error is returned |
| Frame.WrapSpan.NextRender | internal/display/buffer.go:287-302 | a changed line is laid out by Interleave; otherwise the frame is kept |
| Frame.WrapSpan.SetLine1 | internal/display/buffer.go:304-307 | the line becomes the text padded to 80 code points and glyph-mapped, and is marked changed |
| Frame.WrapSpan.SetLine2 | internal/display/buffer.go:81-83 | returns ErrSettingThisLine |
| Frame.WrapSpan.SetLine3 | internal/display/buffer.go:85-87 | returns ErrSettingThisLine |
| Frame.WrapSpan.SetLine4 | internal/display/buffer.go:89-91 | returns ErrSettingThisLine |
| Frame.WrapSpanAscii | internal/display/buffer.go:287-307 | for ASCII text, row k shows characters 20k..20k+20 of the padded text |
| Frame.Buffer.NextRender | internal/display/buffer.go:322-324 | the frame returned is the style's render of the internal frame; per-line, each renderer takes LineRender's new state and all stay ready, so the buffer can render again; wrap-span leaves its object unchanged |
| Frame.Buffer.SetLine1 | internal/display/buffer.go:326-328 | the buffer stays valid; per-line, renderer 1 takes LineSet's state, the other three keep theirs, and all are ready iff the other three were; wrap-span stores the formatted text as changed |
| Frame.Buffer.SetLine2 | internal/display/buffer.go:330-332 | the buffer stays valid; per-line sets renderer 2, keeps the other three and returns no error; wrap-span returns ErrSettingThisLine and changes nothing |
| Frame.Buffer.SetLine3 | internal/display/buffer.go:334-336 | the same for renderer 3, keeping renderers 1, 2 and 4 |
| Frame.Buffer.SetLine4 | internal/display/buffer.go:338-340 | the same for renderer 4, keeping renderers 1–3 |
| Legacy.ParseLegacyField | cmd/szb/main.go:48-57 | a field is accepted iff it is exactly `t`, `em` or `cm`; otherwise the error names its line |
| Legacy.ParseLegacyFieldsExact | cmd/szb/main.go:47-58 | success iff every field is one of the three; otherwise the first refused field is named |
| Legacy.ParseLegacyExact | cmd/szb/main.go:37-61 | other than 4 fields is an overflow-style error; success iff all 4 are accepted |
| Legacy.TryParseLegacyStyle | cmd/szb/main.go:37-61 | the method's loop returns exactly ParseLegacy(flag) |
| Legacy.LegacyFailureSticks | cmd/szb/main.go:47-58 | once a field fails, later fields do not change the result |
| Legacy.LegacyAccepted | cmd/szb/main.go:37-61 | every flag the old parser accepts, the new one accepts with the same kinds at rate 1, and both give the overflow-style error on the same flags |
| Legacy.LegacyAcceptedOk | cmd/szb/main.go:37-61 | a flag the old parser accepts has 4 kinds, and the new parser gives the same kinds at rate 1 |
| Legacy.SameFieldCount | cmd/szb/main.go:42-45 | the old and the new parser give ErrInvalidOverflowStyle on the same flags |
| Legacy.LegacyRefusesRate | cmd/szb/main.go:51-56 | `t,em:3,cm,t` is refused for line 1 by the old parser and accepted by the new one |
| Legacy.LegacyTrimSet | cmd/szb/main.go:190-193 | the old trim stores the padded line without the glyph map |
| Legacy.LegacyTrimAscii | cmd/szb/main.go:190-193 | for ASCII text it stores what the new trim stores |
| Legacy.LegacyEndlessSet | cmd/szb/main.go:115-125 | a set keeps the marquee valid and the first set starts it |
| Legacy.LegacyEndlessRender | cmd/szb/main.go:98-113 | writes `(line + nextLine)[pos..pos+20]` and keeps the marquee valid |
| Legacy.LegacyEndlessIsRateZero | cmd/szb/main.go:98-113 | the old endless marquee is the new one at rate 0 |
| Legacy.LegacyCycleSet | cmd/szb/main.go:164-174 | queues the padded line and marks it changed; the first set starts it |
| Legacy.LegacyCycleAsWritten | cmd/szb/main.go:137-162 | the old step panics exactly when no changed 20-byte line is queued and pos lies outside 0..len(line) |
| Legacy.LegacyCycleSetValid | cmd/szb/main.go:164-174 | a set from the zero state or a valid state gives a valid state |
| Legacy.LegacyCycleRender | cmd/szb/main.go:137-162 | the corrected old step writes 19 or 20 bytes and keeps pos in range |
| Legacy.LegacyAgrees | cmd/szb/main.go:137-162 | the old step is the corrected one except that its snap keeps pos and direction |
| Legacy.LegacyShortWindow | cmd/szb/main.go:145-161 | a 20-byte line is shown, then shown from byte 1 (19 bytes), then back at 0 |
| Legacy.LegacyForward | cmd/szb/main.go:152-154 | while a window fits, n renders advance pos by n |
| Legacy.LegacyRunForward | cmd/szb/main.go:152-154 | the same inside a run of calls, for both readings |
| Legacy.LegacyStalePositionPanics | cmd/szb/main.go:138-150 | a long line scrolled 21 times, then a 20-byte line, panics on the second render |
| Legacy.LegacyStalePositionFixed | cmd/szb/main.go:138-150 | the corrected step shows the 20-byte line from 0 |
| Legacy.LegacyRenderBeforeSet | cmd/szb/main.go:145-157 | two renders before any set panic |
| Legacy.LegacyAsciiInstances | cmd/szb/main.go:165 | the counterexample is reached with ASCII text |
| Legacy.LegacyInit | cmd/szb/main.go:50-54 | a fresh trim can render at once; a fresh marquee needs a set first |
| Legacy.LegacyLineSet | cmd/szb/main.go:115-193 | any set leaves the renderer valid and ready |
| Legacy.LegacyLineRender | cmd/szb/main.go:98-188 | no render writes more than 20 bytes, and a marquee writes at least 19 |
| Legacy.WrapLine | cmd/szb/main.go:240-242 | a line shorter than 80 bytes is padded again, so at least 80 bytes are sliced |
| Legacy.WrapLineSet | cmd/szb/main.go:240-263 | a line stored by setLine1 is never padded again |
| Legacy.WrapLineBlank | cmd/szb/main.go:240-263 | before any set, the render pads the empty line to 80 spaces |
| LegacyDisplay.OldTrimLine.NextRender | cmd/szb/main.go:183-188 | state and frame change as TrimRender says |
| LegacyDisplay.OldTrimLine.SetCurrentLine | cmd/szb/main.go:190-193 | the state becomes LegacyTrimSet's |
| LegacyDisplay.OldEndlessMarquee.NextRender | cmd/szb/main.go:98-113 | state and frame change as LegacyEndlessRender says |
| LegacyDisplay.OldEndlessMarquee.SetCurrentLine | cmd/szb/main.go:115-125 | the state becomes LegacyEndlessSet's |
| LegacyDisplay.OldCycleMarquee.NextRender | cmd/szb/main.go:137-162 | state and frame change as the corrected LegacyCycleRender says |
| LegacyDisplay.OldCycleMarquee.SetCurrentLine | cmd/szb/main.go:164-174 | the state becomes LegacyCycleSet's |
| LegacyDisplay.MakeOldRenderer | cmd/szb/main.go:48-57 | a fresh renderer in LegacyInit's state |
| LegacyDisplay.OldPerLine.NextRender | cmd/szb/main.go:204-211 | each renderer steps and the frame becomes Rows of their writes |
| LegacyDisplay.OldPerLine.SetLine1 | cmd/szb/main.go:213-215 | only renderer 1 is set |
| LegacyDisplay.OldPerLine.SetLine2 | cmd/szb/main.go:217-220 | only renderer 2 is set, and no error is returned |
| LegacyDisplay.OldPerLine.SetLine3 | cmd/szb/main.go:222-225 | only renderer 3 is set, and no error is returned |
| LegacyDisplay.OldPerLine.SetLine4 | cmd/szb/main.go:227-230 | only renderer 4 is set, and no error is returned |
| LegacyDisplay.OldWrapSpan.NextRender | cmd/szb/main.go:239-258 | a line under 80 bytes is padded again and marked changed; a changed line is laid out by Interleave; otherwise the frame is kept |
| LegacyDisplay.OldWrapSpan.SetLine1 | cmd/szb/main.go:260-263 | the line becomes the text padded to 80 code points, marked changed |
| LegacyDisplay.OldWrapSpan.SetLine2 | cmd/szb/main.go:74-76 | returns ErrSettingThisLine |
| LegacyDisplay.OldWrapSpan.SetLine3 | cmd/szb/main.go:78-80 | returns ErrSettingThisLine |
| LegacyDisplay.OldWrapSpan.SetLine4 | cmd/szb/main.go:82-84 | returns ErrSettingThisLine |
| LegacyDisplay.DisplayBuffer.NextRender | cmd/szb/main.go:278-280 | the frame returned is the style's render of the internal frame; per-line, each renderer takes LegacyLineRender's new state and all stay ready; wrap-span re-pads a short line and marks it changed |
| LegacyDisplay.DisplayBuffer.SetLine1 | cmd/szb/main.go:282-284 | the buffer stays valid; per-line, renderer 1 takes LegacyLineSet's state and the other three keep theirs; wrap-span stores the padded text as changed |
| LegacyDisplay.DisplayBuffer.SetLine2 | cmd/szb/main.go:286-288 | the buffer stays valid; per-line sets renderer 2, keeps the other three and returns no error; wrap-span returns ErrSettingThisLine and changes nothing |
| LegacyDisplay.DisplayBuffer.SetLine3 | cmd/szb/main.go:290-292 | the same for renderer 3, keeping renderers 1, 2 and 4 |
| LegacyDisplay.DisplayBuffer.SetLine4 | cmd/szb/main.go:294-296 | the same for renderer 4, keeping renderers 1–3 |
| LegacyDisplay.OldWrapAscii | cmd/szb/main.go:239-263 | for ASCII text the old and new wrap-span show the same frame |
| GoInt.Quot | internal/humanreadable/duration.go:13-15 | Go's truncating division: Euclidean on non-negative operands, and its sign follows the operands' signs |
| GoInt.Rem | internal/humanreadable/duration.go:16 | Go's remainder: Euclidean on non-negative operands, in (−b, 0] for a negative dividend |
| Duration.Seconds | internal/humanreadable/duration.go:13 | the whole seconds s of a non-negative duration satisfy s·10⁹ ≤ ns < (s+1)·10⁹; a negative duration gives s ≤ 0 |
| Duration.Decompose | internal/humanreadable/duration.go:15-41 | the parts have hours < 24 and minutes and seconds < 60 |
| Duration.DecomposeTotal | internal/humanreadable/duration.go:15-41 | the parts add up to the seconds: 86400d + 3600h + 60m + s |
| Duration.DecomposeUnique | internal/humanreadable/duration.go:15-41 | those bounds determine the parts uniquely |
| Duration.FormatParts | internal/humanreadable/duration.go:15-44 | the nested branches print exactly the non-zero parts in the order d, h, m, s |
| Duration.StringParts | internal/humanreadable/duration.go:10-45 | the output is the non-zero parts of the whole seconds; durations below one second, negatives included, print "" |
| Duration.StringEmpty | internal/humanreadable/duration.go:10-45 | the output is empty exactly when the duration is below one second |
| Duration.LeadingDigits | internal/humanreadable/duration.go:19 | the length of the leading digit run |
| Duration.ParseRender | internal/humanreadable/duration.go:44 | reading a rendering back gives its parts |
| Duration.RoundTrip | internal/humanreadable/duration.go:10-45 | the output of any non-negative duration reads back as parts with hours < 24, minutes and seconds < 60, and 86400d + 3600h + 60m + s equal to its whole seconds |
| Duration.ExampleHour | internal/humanreadable/duration.go:10-45 | one hour prints "1h" |
| Duration.ExampleAllParts | internal/humanreadable/duration.go:10-45 | 90061 seconds print "1d1h1m1s" |
| SysStats.StepCases | internal/sysstats/datetime.go:38-50 | a call shows the day of the week iff the counter has reached (60 − showDoWPeriod)·waitUnit; the counter goes up by one, except that passing a minute restarts it at 1 |
| SysStats.SlowRenderAlwaysDoW | internal/sysstats/datetime.go:38-40 | with a render interval above 1000 ms (renderRate > 1000) the wait unit truncates to 0 and every call from a non-negative counter shows the day of the week |
| SysStats.CounterRange | internal/sysstats/datetime.go:38-50 | for a positive rate and a period of 0..60 the counter stays in 1..60·waitUnit+1 |
| SysStats.CallsAdd | internal/sysstats/datetime.go:33-53 | a + b calls are a calls, then b |
| SysStats.CallsCount | internal/sysstats/datetime.go:40-50 | below the end of a minute n calls add n |
| SysStats.Periodic | internal/sysstats/datetime.go:38-50 | every 60·waitUnit + 1 calls the counter comes back and the layouts repeat |
| SysStats.FirstCall | internal/sysstats/datetime.go:20-50 | a fresh counter is 1 after the first call |
| SysStats.DateTime.String | internal/sysstats/datetime.go:33-53 | the layout chosen and the new counter are those of Step |

## Left out

- Serial output, the board, timers and the application loop around the engine are not modelled. `cmd/szb/main.go` after line 296 is not part of this model.
- The `ImplOverflowStyle` and `ImplNoWrapOverflowStyle` marker methods have no behaviour and are not modelled.
- Go's map iteration order in `ReplaceRuneWithLCDCharMap` is random. It is a parameter (`order`, any ordering of the table's rows).
- Strings are sequences of Unicode scalar values, so Go strings holding invalid UTF-8 cannot be expressed.
- The clock, the time zone and `time.Format` of `DateTime.String` are left out. A call yields which of the two layouts it uses (`Layout`). The `time.LoadLocation` error path of `NewDateTime` is left out with them.
- SysStats.DateTime.String: requires `renderRate != 0`. The source panics on division by zero there.
- Renderers.EndlessMarquee.NextRender: requires a line to have been set. Before that the source slices an empty `nextLine` and panics.
- LegacyDisplay.OldEndlessMarquee.NextRender: requires a line to have been set, for the same reason.
- Renderers.CycleMarquee.NextRender: follows the corrected step, not the source's. The source's step is modelled separately (`CycleAsWritten.CycleAdvanceAsWritten`).
- LegacyDisplay.OldCycleMarquee.NextRender: follows the corrected step. The source's step is `Legacy.LegacyCycleAsWritten`.
- Lines.Formatted: uses the per-code-point glyph map (`CharMap.MapGlyphs`), not the order-dependent fold. The two agree on every text without ツ directly followed by コ (`CharMap.FoldIsGlyphMap`).
- Integer widths:
  - `int` overflow is not modelled. This covers render rates near the int64 limits in `counter < rate`, `(60 − showDoWPeriod)·waitUnit`, and durations near the int64 limits.
  - `strconv.Atoi`'s int64 range check is modelled.
- Go slice capacity is not modelled: a slice past a line's length counts as out of range. Go allows it up to the capacity, which matters only in the glyph-map finding below.
- Styles.TryParseCustomStyle: on an error it returns only the error. Go also returns the partly filled `[4]` array alongside the error; its callers are not part of this model.
- Legacy.TryParseLegacyStyle: on an error it returns only the error, not the partly filled array. Its caller (`cmd/szb/main.go:435-438`) exits on the error without reading the array.
- Slices of the frame passed to the renderers are modelled as offsets into one `array<Byte>`. Aliasing between different frames is not modelled.
- `Styles.StyleError.ErrRate` wraps only the two `strconv` error kinds (syntax and range), not their message text. The invalid-line error carries its line index instead of the formatted message.

## Findings

| source | as written | input that shows it | evidently intended | confidence | as-written member | corrected member |
|---|---|---|---|---|---|---|
| internal/display/charmap.go:89-97 | replaces glyph byte strings one map entry at a time, in Go's random map order | "ツコ": ツ becomes 0xC2 and コ 0xBA, which together are the key of º, so in some orders the pair becomes the single byte 0xDF; padded to 20 code points the line is then 19 bytes. When the last map entry visited made a replacement, as in declaration order where º comes last, `bytes.ReplaceAll` returns a slice whose capacity is its length, and `line[0:20]` (buffer.go:220) or `bytes[:80]` (buffer.go:289) is out of range; in other orders the slice reaches into spare capacity and shows a zero byte | each code point is mapped on its own, independent of the order | not executed | CharMap.FoldOrderMatters, CharMap.PaddedLineShrinks | CharMap.MapGlyphsLength, CharMap.FoldIsGlyphMap |
| internal/display/buffer.go:165-181 | taking up a changed 20-byte line keeps `pos` from the previous line | on a fresh `cm:0` marquee (rate 0; at rate N every render here stands for N + 1 renders, since each step then waits N gated renders: Lines.CycleCadence), set a 41-byte line, render 21 times, set "ab", render, set the long line again: the next render slices `line[21:20]` | the snap restarts at position 0 and keeps its direction | not executed | CycleAsWritten.StalePositionPanics | CycleAsWritten.StalePositionFixed, Lines.CycleAdvance |
| internal/display/buffer.go:188-190 | sliding right from position 0 moves `pos` to −1 | on a fresh `cm:0` marquee (rate 0; at rate N every render here stands for N + 1 renders, since each step then waits N gated renders: Lines.CycleCadence), set "ab", render, set a 21-byte line, render twice: the next render slices `line[-1:19]`; or render twice before any set: the second render slices `line[-1:0]` | at 0 the queued line is taken up from 0, sliding left | not executed | CycleAsWritten.NegativePositionPanics, CycleAsWritten.RenderBeforeSetPanics | CycleAsWritten.NegativePositionFixed, Lines.CycleAdvance |
| cmd/szb/main.go:138-150 | the snap to a changed 20-byte line keeps `pos` and the direction | set a 42-byte line, render 21 times, set "ab", render twice: the second slices `line[21:20]` | the snap restarts at position 0, sliding left | not executed | Legacy.LegacyStalePositionPanics | Legacy.LegacyStalePositionFixed, Legacy.LegacyCycleRender |
