# Site-photo claim form: verified model of its layout logic

The program is a Streamlit page (`abcd.py`) for cascade and ventilation work claims.
It collects a site address and up to nine labelled photos and renders them into a
one-page A4 PDF. The page has a title, a one-row address table and a three-column
photo grid. Most of the file is widget and ReportLab plumbing. This project models the
deterministic logic under it, as pure functions and small loops over naturals, reals and
sequences, and proves what that logic guarantees.

Modules, one per concern of the source:

- `Outcome` (`outcome.dfy`): the two ways building the document fails, a picture of
  height 0 and an empty grid table, and the `Result` they travel in.
- `Text` (`text.dfy`): Python's `str.strip`, characterised exactly. Whatever is cut off
  lies in the stripped set, and the result neither starts nor ends with a member of
  it. `StripUnique` shows this characterisation determines the result.
- `Filename` (`filename.dfy`): `sanitize_filename`. Illegal characters are replaced,
  then whitespace is trimmed, then dots are trimmed, with a fallback to `output`.
- `Normalize` (`normalize.dfy`): the dimensions of `enforce_aspect_pad` (4:3 padding
  with a centred paste) and of `_resize_for_pdf` (cap the longer side at 1400 px).
  `Prepare` is the pad-then-cap chain that `build_pdf` applies to each photo.
- `Layout` (`layout.dfy`): `build_pdf` without ReportLab. It covers the address
  text, the cells (photo, "(사진 없음)" placeholder, filler), the filler padding, the
  rows of three, the row-height preset and the 4:3 photo box.
- `Session` (`session.dfy`): the script body. It covers the slot counter with its
  add and delete buttons, the form-kind radio, the per-slot option choice, caption
  resolution, the camera shot winning over an upload, collecting the slots on submit,
  the download file name, and `Submit`, which chains collection into `BuildPdf`.
  Streamlit runs the whole script again on every press, so the selection loop
  (lines 287-304) stores every drawn slot's drop-down before any button acts. `Redraw`
  models that pass, and every action goes through it. A consequence: a slot added and
  then submitted untouched is captioned with the form's first option (`장비납품` for the
  cascade form), not with the `직접입력` default of line 337.

Error handling follows the code. In Python, padding a picture of height 0 raises
`ZeroDivisionError` (line 86). On submit this happens at line 351, in the handler,
before `build_pdf` is called, and the handler catches it for the whole document
(lines 332-369). `Session.CollectedNotBroken` shows that `build_pdf` never receives such
a picture from the handler; called directly, `build_pdf` raises the same error from its
own padding (line 178). The model returns
`Err(ZeroHeight)` from the whole submission, not from one entry. `build_pdf` called
with no items composes no cells, and the grid table of line 234 then has no rows.
ReportLab's `Table` refuses that by default (its `emptyTableAction` is `'error'`), so
`BuildPdf` returns `Err(EmptyTable)` in that case. The submit handler never hits it,
because at least one slot is always drawn.

## Model

| member | source | states |
|---|---|---|
| Text.Strip | abcd.py:80 | `s.strip(chars)`: the result is a contiguous piece of `s`; everything cut from either end is in the set; the result starts and ends outside it |
| Text.Trim | abcd.py:144 | `s.strip()` removes exactly the characters Python counts as whitespace, from both ends |
| Text.StripUnique | abcd.py:80 | any string and offset meeting the strip characterisation equal `Strip`: the characterisation is a complete reference definition |
| Text.StripIdempotent | abcd.py:80 | stripping a stripped string again changes nothing |
| Text.StripKeeps | abcd.py:80 | a string whose two ends lie outside the set is its own strip |
| Text.TrimEmptyIffBlank | abcd.py:339 | `s.strip()` is empty exactly when `s` is all whitespace (both directions) |
| Filename.ReplaceIllegal | abcd.py:80 | each of `\ / : * ? " < > \|` becomes `_`, every other character stays in place, and the length is kept |
| Filename.Cleaned | abcd.py:80 | the name after line 80's cleaning meets `CleansTo`: illegal characters replaced, whitespace stripped from both ends, then dots |
| Filename.CleansToUnique | abcd.py:80 | `CleansTo` pins the cleaned name down: any string meeting it equals `Cleaned` |
| Filename.CleanedIsPiece | abcd.py:80 | the cleaned name is a legal piece of the replaced name, does not start or end with a dot, and is empty exactly when the trimmed name is all dots |
| Filename.SanitizeNormalized | abcd.py:80-81 | never empty, no illegal character, no leading or trailing dot; `output` exactly when the trimmed name is all dots, and otherwise the replaced name with whitespace and then dots stripped from both ends (`CleansTo`) |
| Filename.Sanitize | abcd.py:78-81 | `sanitize_filename`, with NFKD as an opaque function: never empty, no illegal character, no dot at either end; `output` exactly when the normalised, replaced and trimmed name is all dots, otherwise that name stripped of whitespace and then dots |
| Filename.SanitizeKeepsCleanName | abcd.py:78-81 | a name that NFKD leaves alone and that is already clean (legal, no whitespace or dot at either end) comes back unchanged |
| Filename.SanitizeBlankFallsBack | abcd.py:80-81 | a blank name becomes `output` |
| Normalize.RoundHalfEven | abcd.py:91 | Python's `round`: within 1/2 of the input, and ties go to the even integer |
| Normalize.NearTargetInIntegers | abcd.py:86-87 | `abs(w/h - 4/3) < 1e-3` holds exactly when `1000·|3w-4h| < 3h` |
| Normalize.WiderInIntegers | abcd.py:90 | `w/h > 4/3` holds exactly when `3w > 4h` |
| Normalize.RoundThreeQuarters | abcd.py:91 | `round(w·3/4)` is within 2 of `3w` after scaling by 4, and even on a tie |
| Normalize.RoundFourThirds | abcd.py:94 | `round(h·4/3)` is within 1 of `4h` after scaling by 3 |
| Normalize.ThreeQuartersUnique | abcd.py:91 | that rounding condition admits exactly one height |
| Normalize.FourThirdsUnique | abcd.py:94 | that rounding condition admits exactly one width |
| Normalize.PadToFourThree | abcd.py:83-101 | height 0 is the division error; within the tolerance the picture is returned unchanged (both directions); otherwise a wider picture keeps its width and gets the height `round(w·3/4)` with ties to even, a taller one keeps its height and gets the width `round(h·4/3)`; the picture is pasted centred, and the canvas is 4:3 up to rounding |
| Normalize.ScaleShort | abcd.py:107-112 | the shorter side scaled by `cap/long` and rounded down; it grows neither past the cap nor past its original value |
| Normalize.Resize | abcd.py:103-113 | identity when the longer side is within the cap; otherwise the longer side (width on ties) becomes exactly the cap, the other side is the rounded-down proportional value, and no side grows |
| Normalize.PaddedIsLandscapish | abcd.py:90-95 | any padding result of a picture with positive height is landscape, with a height of at least half its width |
| Normalize.ResizeKeepsPixels | abcd.py:103-113 | resizing such a canvas never produces a side of zero pixels |
| Normalize.Prepare | abcd.py:178-179 | padding then resizing fails only for height 0; otherwise each side is between 1 and 1400 px and the result is landscape |
| Normalize.RepadIsNoOp | abcd.py:83-101 | for pictures at least 667 px high, the second padding in `build_pdf` leaves the canvas of the first padding unchanged |
| Normalize.RepadCanGrowSmallPictures | abcd.py:90-95 | below that, padding twice can grow a canvas again: 2×1 becomes 2×2, then 3×2 |
| Normalize.ToleranceBoundaryPads | abcd.py:86-101 | a 3997 by 3000 picture lies exactly 1/1000 from 4/3, which the test of line 87 does not accept, so it is padded to 4000 by 3000 at offset (1, 0) |
| Layout.Capped | abcd.py:166 | `min(len(items), 9)`: at most both bounds, and equal to one of them |
| Layout.Caption | abcd.py:194-226 | the text under a photo cell and under a placeholder is the entry's caption; under a filler it is `-` |
| Layout.UpperText | abcd.py:207-230 | a photo cell draws no text above its caption; a cell without a photo draws `(사진 없음)` and a filler draws `(빈 칸)` |
| Layout.RowsFor | abcd.py:167 | `ceil(n/3)`: the least row count whose three-wide rows hold `n` cells |
| Layout.AddressText | abcd.py:144 | never empty; a blank address gives `-`; otherwise the result is the address with surrounding whitespace stripped |
| Layout.RowHeight | abcd.py:169 | the preset is between 200 and 260, and up to three rows of it take at most 600 points |
| Layout.RowHeightMonotone | abcd.py:169 | more rows never get a taller row height |
| Layout.GridFitsFrame | abcd.py:160-169 | up to three rows of the preset height fit between the A4 top and bottom margins with 200 points to spare |
| Layout.FitBox | abcd.py:183-187 | the photo box is exactly 4:3, fits within the image area and touches it on at least one side |
| Layout.FitBoxIsLargest | abcd.py:183-187 | no 4:3 box that fits the area is wider or taller than the chosen one |
| Layout.Renders | abcd.py:176-219 | an item with a picture becomes a photo cell holding that picture padded to 4:3 and capped at 1400 px, with the item's caption; an item without one becomes the `(사진 없음)` cell with its caption |
| Layout.PhotoBoxSpansColumn | abcd.py:161-187 | on A4 the column width is what limits a photo for every row preset, so every photo box is the full image width |
| Layout.RenderedCaption | abcd.py:176-219 | a rendered cell carries its item's caption, is not a filler, and holds a photo exactly when the item has one |
| Layout.ComposeCells | abcd.py:174-219 | one cell per item among the first nine, in order; an item without a photo becomes the placeholder with its caption; it fails exactly when one of those items has a picture of height 0 |
| Layout.FillersNeeded | abcd.py:222 | fewer than three fillers, and exactly enough to reach a multiple of three |
| Layout.PadWithFillers | abcd.py:221-230 | keeps the existing cells, adds only fillers and at most two of them, and reaches `3·ceil(n/3)` cells |
| Layout.Rows | abcd.py:233 | `len(cells)//3` rows, each exactly three cells long |
| Layout.FlattenRows | abcd.py:233 | reading the rows back in order gives the cell list again |
| Layout.BuildPdf | abcd.py:124-250 | keeps the title; the address cell is `AddressText`; the grid has `ceil(min(n,9)/3)` rows of three; read in order, its cells are the first nine items rendered one by one, then fillers; the row preset and the photo box come from that row count; it fails exactly when there are no items (the empty table) or an item in range has a picture of height 0 |
| Session.Options | abcd.py:276-280 | both option lists contain the custom option `직접입력`, and no option is empty |
| Session.Title | abcd.py:356 | the title of either form is never blank, so it can stand in for a blank address in the download name |
| Session.AddPhoto | abcd.py:314-318 | below nine slots the count goes up by one; at nine nothing changes and the warning shows; the form kind and labels are untouched; validity is kept |
| Session.DeletePhoto | abcd.py:320-326 | above one slot the count goes down by one and only the label state of the removed slot is dropped; at one nothing changes and the warning shows; the form kind is untouched; validity is kept |
| Session.SetChoice | abcd.py:301-304 | stores the chosen option for the slot, with the typed text only for the custom option; the form kind, the count and the other slots are unchanged; validity is kept |
| Session.ResolveLabel | abcd.py:337-339 | a caption differs from the stored option only for the custom option `직접입력`, and then it is no longer than the typed text |
| Session.RunKeepsValid | abcd.py:255-326 | any sequence of presses keeps the count in 1..9, label state within the drawn slots, and every stored option one the form offers |
| Session.ReachableIsValid | abcd.py:255-326 | starting from the first load, every reachable state has between one and nine slots, label state only for drawn slots, and only offered options stored |
| Session.AddThenDelete | abcd.py:314-326 | adding a slot and then deleting it restores the state exactly |
| Session.ResolveLabelCases | abcd.py:337-339 | the trimmed typed text, non-empty, when the option is `직접입력` and the text is not blank; the option itself otherwise; missing slot state defaults to `직접입력` with empty text |
| Session.BlankTypedFallsBack | abcd.py:337-339 | `직접입력` with whitespace-only text resolves to `직접입력` itself, not to an empty caption |
| Session.ResolvedLabelNonEmpty | abcd.py:337-339 | while the stored options are non-empty, as every option is, no caption is empty |
| Session.PickPicture | abcd.py:342-348 | a slot has a picture exactly when it has a camera shot or an upload, and the camera shot wins |
| Session.PadAttachment | abcd.py:350-351 | padding a slot's picture fails only for height 0 and keeps whether there is a picture |
| Session.SlotItem | abcd.py:336-353 | a slot's item carries the resolved caption and has a photo exactly when the slot has a picture; it fails only for a picked picture of height 0 |
| Session.CollectedNotBroken | abcd.py:350-351 | a collected item never holds a picture of height 0, so `build_pdf` cannot fail on it |
| Session.CollectItems | abcd.py:334-353 | one item per drawn slot, in slot order, each the slot's item; it fails exactly when some slot's picked picture has height 0 |
| Session.DownloadBase | abcd.py:359 | the download name is based on the address, or on the title when the address is blank |
| Session.WithSuffix | abcd.py:364 | the result is the stem followed by `_기성청구양식.pdf` |
| Session.DownloadName | abcd.py:359-364 | the offered file name is `sanitize_filename` of the address, or of the title when the address is blank, followed by `_기성청구양식.pdf`; that stem is non-empty and legal |
| Session.DownloadNameKeepsCleanAddress | abcd.py:359-364 | an address that is already a clean file name, and that NFKD leaves alone, becomes the stem as it is |
| Session.ShownOption | abcd.py:293-295 | an untouched drop-down shows an option the form offers: the stored option while it is offered, the form's first option otherwise |
| Session.StoreSlots | abcd.py:287-304 | after the first `n` rounds of the selection loop, slots below `n` hold what their drop-down shows and every other slot keeps its label state |
| Session.Redraw | abcd.py:287-304 | after the selection loop every drawn slot holds the option its drop-down shows, which the form offers, with the typed text only for `직접입력`; label state of other slots is untouched |
| Session.RedrawOffers | abcd.py:287-304 | the selection loop keeps a valid state valid and leaves only offered options stored |
| Session.ShownStable | abcd.py:293-304 | on the next pass a drawn slot shows what the last pass stored for it |
| Session.RedrawIdempotent | abcd.py:287-304 | a second pass of the selection loop stores nothing new |
| Session.Apply | abcd.py:269-326 | one press with the rerun it causes: the radio sets the form kind; add and delete change the count as their buttons do; a selection of an offered option on a drawn slot stores it (typed text only for `직접입력`), and any other selection only reruns the loop; every drawn slot the press does not touch holds what it shows |
| Session.Run | abcd.py:269-326 | presses without a radio switch keep the form kind; presses of only drop-downs and the radio keep the slot count |
| Session.RunConcat | abcd.py:269-326 | pressing one run of controls and then another is the same as pressing them all in order |
| Session.FreshSlotCaption | abcd.py:293-339 | a drawn slot without label state is captioned with the form's first option on submit |
| Session.ApplyKeepsValid | abcd.py:269-326 | a press of any control (radio, drop-down, text box, add, delete), with the rerun it causes, keeps the state valid and its stored options offered |
| Session.ReachableCaptionsNonEmpty | abcd.py:255-339 | on every state reachable from the first load, no slot's caption is empty |
| Session.SubmitStored | abcd.py:331-358 | the document has the form's title, the address cell of line 144 and `ceil(count/3)` rows at the matching preset; cell `i` renders slot `i`'s item (its caption, and its picked picture padded to 4:3 and prepared) and its caption is non-empty; the cells after the slots are fillers; it fails exactly when a picked picture has height 0 |
| Session.Submit | abcd.py:287-358 | the same for the state after the selection loop that the button's rerun runs first, on any valid state |

## Left out

- Streamlit widgets and session-state storage are not modelled. They become values: a
  `Form` state, actions applied to it, and maps from slot index to the size of the
  camera shot or upload. A rerun is modelled by `Session.Redraw`. In it, an untouched
  drop-down shows the option that the code's `index=` argument picks (line 295). The
  model assumes Streamlit does not keep some other widget value across a change of
  options.
- Font registration (lines 34-57), paragraph styles, table paddings, borders and the
  actual PDF bytes come from ReportLab, a foreign library. Cells are abstract values,
  and only the row heights and the photo box are computed.
- Pixel contents and codecs are not modelled: `Image.open`/`convert`, the white fill,
  `paste`, resampling, and JPEG encoding (`_pil_to_bytesio`). A picture is its size.
- Filename.Sanitize: the Unicode NFKD normalisation of line 79 is an opaque function
  parameter, because its table is outside this model.
- Normalize.PadToFourThree: the tolerance test, `w / (4/3)` and `h * (4/3)` are exact
  rational arithmetic, not IEEE doubles. At the tolerance boundary the two part ways:
  for 3997 by 3000 the difference from 4/3 is exactly 1/1000, so the model pads to
  4000 by 3000 (`Normalize.ToleranceBoundaryPads`). In doubles it comes out just below
  1/1000, so Python keeps the picture.
- Normalize.Resize: `int(h * (max_px / w))` is modelled as exact rounded-down
  division. A float product that lands just below a whole number could come out one
  pixel smaller in Python.
- Normalize.Resize on its own can produce a zero side for an extreme aspect ratio,
  where PIL would raise. The model returns the zero. `build_pdf` always pads first, and
  `Prepare` proves a zero side never happens there.
- Layout.RowHeight: the 600-point bound is about the grid only. The title and address
  table heights depend on font metrics, which are not modelled.
- Session.CollectItems: the model assumes every camera shot and upload decodes.
  `Image.open(...).convert("RGB")` (lines 346, 348) raises on a file it cannot read,
  and that aborts the whole submission through line 367. Decoding is a foreign
  library, and this model has no failing-decode case.
- Session.SetChoice requires the slot to be a drawn one, because the selection loop
  only runs over drawn slots (line 287). `Session.Apply` makes a press on a slot that is
  not drawn, or on an option the form does not offer, change nothing but the rerun.
- Layout.BuildPdf: "fails exactly when" assumes ReportLab's `Paragraph` accepts every
  text. `build_pdf` hands it the title (line 138), the address (line 144) and every
  caption (lines 194, 210). `Paragraph` parses its text as markup and raises on, for
  example, an unclosed `<b>` typed into the address. Its markup parser is a foreign
  library, and this model has no failing-markup case.
- Session.Submit: the same assumption about `Paragraph` holds for the address and the
  typed captions that reach `BuildPdf`. Line 367 would catch such a failure for the
  whole document.