# A verified model of the PDF-curation pipeline

The pipeline turns a commercial-policy PDF into Markdown. Tables are detected, rebuilt as HTML and put back where they were; images are replaced by keys and their descriptions put back the same way.

This project models the deterministic logic of that pipeline in Dafny and proves properties about it. Every module is named after the stage it models and cites the source lines it follows.

## Content-stream filters

Decoded page streams are modelled as strings, read line by line.

- **`StreamLines`**: the running position, with `Tm` and `cm` setting it and `Td` adding to it. It also holds the per-line operator tests (`TJ`, `Tj` arrays, `m`, `l`, `re`, `Do`) and the shared line filter.
- **`Pages`**: areas, the y-flip into PDF user space, and page dictionaries. Its predicate `InArea` is the closed containment test `elemento_en_area`.
- **`TableKeys`**: removes table areas and writes the `Llave_Unica_Tabla_<p>_<t>` key.
- **`InteriorData`**: removes everything outside each crop area, using the negated containment test.
- **`ImageKeys`**: replaces `Do` invocations with `Llave_Unica_Imagen_<p>_<n>` keys.
- **`TextRemoval`**: the text-free copy used for table detection.
- **`XObjects`**: the `q`/`Q`/`cm`/`Do` interpreter that inlines form XObjects.

## Table reconstruction

- **`Contours`** and **`ContourHierarchy`**: remove nearly collinear vertices from cell contours, and select the leaf contours above the area threshold.
- **`Grid`**: clusters cell coordinates into grid lines.
- **`TableStructure`** and **`TableLayout`**: the span assignment and what it means as a tiling of the grid.
- **`HtmlTable`**: the HTML serialiser and the table file name.
- **`TableText`**: the image-to-PDF coordinate map, the assignment of words to cells, and the contained-table filter.
- **`CellDetection`**: which contours become cells, their ids and the table extent; also the colour-mask rule of the image clean-up.
- **`TableClosing`**: the dark-edge band scan that closes a table image. The image is an `array2` that it updates in place.
- **`StableSort`**: Python's stable `sort(key=...)`.

## Page cutting

- **`CropRegions`**: NumPy indexing and slicing, the white-region test, the half-open exception test and the perimeter scan.
- **`CropSession`**: a class holding the interactive state. That state is the selected areas, the skipped pages and the accepted crops. The selection, click, toggle, crop, plan and confirmation callbacks are its methods.
- **`FolderNames`**: the folder-name sanitiser.

## Text to Markdown

- **`PlainText`**: stream-text collection and the line-by-line Markdown rendering.
- **`TextCleanup`**: the substitutions of `limpiar_texto`.
- **`MarkerReplacement`**: puts tables and image texts back in place of their keys.
- **`PolicyHeader`**: the policy header.
- **`SpanStyles`**: span styles and colour decomposition.
- **`Common`**: the Python string and number operations the stages share.

Loops in the source are methods proved against specification functions. State the source keeps in globals is a class. The rest is functions and lemmas.

Where a comment or docstring in the source disagrees with the code, the model follows the code:

- In EliminarDatosInternosFisicos.py, `elemento_en_area` is the negation of containment. So its `filtrar_contenido` drops the lines outside the area, although the docstring says it drops the lines inside.
- The sort key of `sort_cropped_images` is `(cX, id)`, although its comment says `(cY, cX)` (Finding 5 below).

## Model

| member | source | states |
|---|---|---|
| Pages.FlipContainment | EliminarDatosInternosFisicos.py:205-211 | flipping the y axis against the page height keeps the rectangle ordered, and a point is in the flipped area exactly when its mirror image is in the drawn rectangle |
| StreamLines.FirstDo | EliminarDatosInternosFisicos.py:128 | the leftmost `/name Do` match: a match starts there and none starts earlier; none means no match anywhere |
| StreamLines.StripDoFromShape | EliminarDatosInternosFisicos.py:136 | removing the `Do` invocations never lengthens a line, leaves a line without one unchanged and shortens a line with one |
| StreamLines.StripDoChangesIffDo | EliminarDatosInternosFisicos.py:128-136 | the removal changes a line exactly when the line holds a `Do` invocation |
| StreamLines.Trace | EliminarDatosInternosFisicos.py:53-140 | the line loop yields one result per line of the split stream, or fails as a whole when an operand is not a float |
| StreamLines.Kept | EliminarDatosInternosFisicos.py:139-140 | only lines not marked for removal are kept, so no more lines than went in |
| StreamLines.PositionForChecks | EliminarDatosInternosFisicos.py:62-73 | `Tm` sets the current position to its last two operands, then `Td` adds its two operands |
| StreamLines.DecideLine | EliminarDatosInternosFisicos.py:75-116 | the text-array, fragmented-TJ, `m`, `l` and `re` checks run in that order, each overwriting `eliminar` |
| StreamLines.FilterLine | EliminarDatosInternosFisicos.py:59-136 | one pass of the loop body: position, checks, `cm` update, then `Do` removal at the resulting position |
| StreamLines.TraceNoneStays | EliminarDatosInternosFisicos.py:66-125 | a float conversion error on any line aborts the whole filter |
| StreamLines.FilterContent | EliminarDatosInternosFisicos.py:45-143 | the loop over the lines computes the filter: split on newlines, step every line, join the kept lines with newlines |
| StreamLines.DecideIsLastCheck | EliminarDatosInternosFisicos.py:75-116 | a line is removed exactly when the last of its matching checks puts its point in the area; with no matching check it stays |
| StreamLines.CmAfterChecks | EliminarDatosInternosFisicos.py:121-125 | a `cm` operator on a line never changes that line's own removal decision |
| StreamLines.TraceSteps | EliminarDatosInternosFisicos.py:46-140 | each line is processed from the position left by all the lines before it |
| StreamLines.StepText | EliminarDatosInternosFisicos.py:127-136 | a line is kept as written, or with its `Do` invocations removed when the current position passes the area test |
| StreamLines.StepDrop | EliminarDatosInternosFisicos.py:60-116 | a line is removed exactly when the last of its check points passes the area test |
| StreamLines.TraceTexts | EliminarDatosInternosFisicos.py:127-140 | every line of the stream is either unchanged or loses exactly its `Do` invocations |
| StreamLines.TraceDrops | EliminarDatosInternosFisicos.py:59-116 | for every line, the removal decision is the last check point's area test at that line's position |
| StreamLines.UnrecognisedLineKept | EliminarDatosInternosFisicos.py:75-116 | a line with no text array, no fragmented TJ and no `m`, `l` or `re` operands is never removed |
| StreamLines.KeptAll | EliminarDatosInternosFisicos.py:139-140 | when no line is marked for removal every line text is kept, in order |
| StreamLines.FilterIdentity | EliminarDatosInternosFisicos.py:53-143 | when no line is removed or changed the filter returns the stream unchanged (splitting and joining on newlines are inverse) |
| InteriorData.TracePositions | EliminarDatosInternosFisicos.py:62-125 | the positions the loop tracks never depend on the area test |
| InteriorData.ComplementaryTests | EliminarDatosInternosFisicos.py:8-21 | under two complementary area tests every line carrying a position check is dropped by exactly one of them, and a line without one by neither |
| InteriorData.Complementary | EliminarDatosInternosFisicos.py:8-21 | with this pass's negated `elemento_en_area`, a line carrying a check is removed by exactly one of the inside and outside tests, and a line without one by neither |
| InteriorData.PageOrder | EliminarDatosInternosFisicos.py:181-188 | the pages of `page_areas` are each listed once, every crop entry's page is there, and nothing else |
| InteriorData.PageOrderExists | EliminarDatosInternosFisicos.py:188-191 | every grouped page is a valid, possibly negative, index into the page list exactly when every crop entry's page is |
| InteriorData.PageCopies | EliminarDatosInternosFisicos.py:196-254 | one filtered copy of the page per area, in area order |
| InteriorData.CopiesLength | EliminarDatosInternosFisicos.py:188-254 | the output holds as many pages as the grouped pages have areas |
| InteriorData.AreasOfAbsent | EliminarDatosInternosFisicos.py:181-185 | a page crop_data never names has no areas |
| InteriorData.AreaCountExtend | EliminarDatosInternosFisicos.py:182-185 | appending a crop entry adds one area to its page's count and none to the others |
| InteriorData.AreaCountAll | EliminarDatosInternosFisicos.py:181-254 | every crop entry yields exactly one output page |
| InteriorData.GroupByPage | EliminarDatosInternosFisicos.py:181-185 | the dictionary loop builds the pages in order of first appearance, each with its rectangles in crop_data order |
| InteriorData.FilterStream | EliminarDatosInternosFisicos.py:216-251 | a decodable stream is replaced by its filtered text when that differs; anything else is left as it was |
| InteriorData.FilterCopy | EliminarDatosInternosFisicos.py:200-247 | the copy for one area has every stream of the original page filtered against that area |
| InteriorData.CopiesOfPage | EliminarDatosInternosFisicos.py:196-254 | the loop over a page's areas produces one fresh copy per area |
| InteriorData.CopyGroups | EliminarDatosInternosFisicos.py:188-254 | the loop over the grouped pages appends each page's copies in order, and fails, with no document, exactly when a grouped page is not in the page list |
| InteriorData.KeepInterior | EliminarDatosInternosFisicos.py:146-254 | the pass fails exactly when a crop entry names a page outside the document; otherwise the new document holds one filtered copy per crop entry, grouped by page in order of first appearance |
| TableKeys.TextBlockSplits | EliminarYEscribirLlavesDeTablas.py:37-46 | the text object `agregar_texto_a_pagina` returns splits back into its ten lines, the `Tm` line and the text-showing line among them |
| TableKeys.KeyPointInside | EliminarYEscribirLlavesDeTablas.py:289-291 | the key is written at the table's left edge half-way down, a point inside the flipped table area |
| TableKeys.MarkStream | EliminarYEscribirLlavesDeTablas.py:286-291 | the loop over a page's areas filters the running text with each area and appends that area's key block; a float error aborts the stream |
| TableKeys.ApplyAreasNoneStays | EliminarYEscribirLlavesDeTablas.py:287-291 | once an area's filter fails the whole stream fails |
| TableKeys.GroupByPage | EliminarYEscribirLlavesDeTablas.py:222-227 | every page of the document starts with an empty list and each crop entry is appended to its page's list, in crop_data order; the grouping fails exactly when an entry names a page outside the document |
| TableKeys.MarkEntries | EliminarYEscribirLlavesDeTablas.py:263-305 | a page with areas has every decodable content stream run through its areas and replaced when the text changed |
| TableKeys.MarkOne | EliminarYEscribirLlavesDeTablas.py:266-305 | one entry of a page with areas comes out as the entry specification says: a decodable content stream whose text the areas change is replaced, any other entry is kept |
| TableKeys.RemoveTables | EliminarYEscribirLlavesDeTablas.py:209-315 | the pass fails exactly when crop_data names a page outside the document; otherwise the new document has one page per original page, each marked with the areas crop_data lists for it |
| TableKeys.MarkPageShape | EliminarYEscribirLlavesDeTablas.py:253-315 | a page without areas comes out unchanged; every page keeps its height, its number of entries and its non-stream entries |
| TableKeys.LastKeyWritten | EliminarYEscribirLlavesDeTablas.py:287-291 | a stream that goes through ends with the key block of the page's last area |
| TableKeys.KeyLineShowsText | EliminarYEscribirLlavesDeTablas.py:109-111 | the key line `[(key)] TJ` is itself a text-showing array the filter recognises |
| TableKeys.TmLineStep | EliminarYEscribirLlavesDeTablas.py:97-99 | the key block's `1 0 0 1 x y Tm` line moves the current position to the key's point |
| TableKeys.QuietLineStep | EliminarYEscribirLlavesDeTablas.py:59-206 | a line with no position operator keeps the position, and a text-showing one is dropped exactly when that position is hit |
| TableKeys.KeyLineAgainstLaterArea | EliminarYEscribirLlavesDeTablas.py:287-291 | a key written for an earlier table is filtered by the later areas of the same page, and is dropped exactly when a later area contains its point |
| ImageKeys.RunCounts | EliminarYEscribirImagenes.py:65-81 | off page index 1 every `Do` line raises the counter by one and adds one comment chunk; on it nothing is counted |
| ImageKeys.SparedPageVerbatim | EliminarYEscribirImagenes.py:72 | on page index 1 a stream's lines are emitted unchanged |
| ImageKeys.KeyNumbers | EliminarYEscribirImagenes.py:71-78 | a handled `Do` line is preceded by the comment naming its XObject, loses its invocation and carries the key numbered one past the counter |
| ImageKeys.ProcessLines | EliminarYEscribirImagenes.py:61-81 | the loop over a stream's lines computes the chunks and the counter of the line-by-line specification, failing on a float error |
| ImageKeys.ProcessLine | EliminarYEscribirImagenes.py:65-81 | one line moves the cursor on `cm`, turns a `Do` line off the spared page into a comment and the stripped line with its key block, and fails on a malformed `cm`, exactly as the line step specifies |
| ImageKeys.FailedStays | EliminarYEscribirImagenes.py:86-87 | after a float error the remaining lines change nothing: the entry is skipped |
| ImageKeys.MarkEntries | EliminarYEscribirImagenes.py:42-87 | the page keeps one entry per original entry, the counter threading through them |
| ImageKeys.ProcessPage | EliminarYEscribirImagenes.py:39-87 | the loop over a page's entries starts the counter at 0 and rewrites each decodable stream |
| ImageKeys.ProcessEntry | EliminarYEscribirImagenes.py:49-85 | one entry: a decodable stream is replaced by the join of its chunks unless a conversion raised, and the counter is carried on either way |
| ImageKeys.RemoveImages | EliminarYEscribirImagenes.py:38-89 | every page comes out, in order, after the pass with its own index |
| ImageKeys.SparedPageUnchanged | EliminarYEscribirImagenes.py:61-85 | on page index 1 every stream is rewritten to the join of its own split, its own text |
| XObjects.IdentityNeutral | InyectarXObjects.py:12-21 | the identity matrix that opens the graphics-state stack fixes every point and is neutral on both sides of the product |
| XObjects.ApplyMul | InyectarXObjects.py:12-28 | applying the product of two matrices to a point applies the right factor first, then the left one |
| XObjects.NonSpaceRun | InyectarXObjects.py:39 | a `/`-name token extends over a run of non-space characters that stays inside the content |
| XObjects.NumberEnd | InyectarXObjects.py:39 | a numeral matched at a position ends strictly after it and inside the content |
| XObjects.TokenAt | InyectarXObjects.py:39-47 | a token matched at a position is the substring from that position to the token's end |
| XObjects.NumberWellFormed | InyectarXObjects.py:39 | a matched numeral is an optionally signed run of digits with at most one point and a final digit |
| XObjects.TokenAtWellFormed | InyectarXObjects.py:39-47 | every token matched is a `/`-name, a numeral, `q`, `Q`, `cm` or `Do` |
| XObjects.TokensWellFormed | InyectarXObjects.py:32-48 | every token of the whole scan is well formed and occurs in the content |
| XObjects.Tokenize | InyectarXObjects.py:32-48 | the tokenizing loop returns the scan of the content from its start |
| XObjects.Exec | InyectarXObjects.py:50-100 | the interpreter's stack never empties: it starts with the identity and `Q` never pops the last entry |
| XObjects.ProcessTokens | InyectarXObjects.py:50-100 | the token loop returns the usages of the interpreter run over all tokens |
| XObjects.ProcessToken | InyectarXObjects.py:62-99 | one token changes the stack and the usages exactly as the interpreter step does: `q` duplicates the top matrix, `Q` pops all but the last, a `cm` after six numerals right-multiplies the top, a `Do` after a name records it |
| XObjects.UsagesPerDo | InyectarXObjects.py:90-97 | one usage per `Do` that has a token before it, each naming the token before some `Do` |
| XObjects.SegmentKeepsBelow | InyectarXObjects.py:64-73 | a stretch that never closes more than it opens grows the stack by its balance and leaves the entries below the top untouched |
| XObjects.QRestoresStack | InyectarXObjects.py:64-73 | a `q` and the `Q` that closes it restore the whole stack, whatever the `cm`s between them did |
| XObjects.CmConcatenates | InyectarXObjects.py:74-89 | after a `cm` with six numerals the new top maps a point through the operand matrix first and then through the old top |
| XObjects.ScaleMapsRange | InyectarXObjects.py:185-188 | the scale and translation computed from two ranges send the ends of the first onto the ends of the second |
| XObjects.BoxMapMaps | InyectarXObjects.py:183-191 | the scale-and-translate matrix maps the lower-left and upper-right corners of the XObject's box onto those of the target box |
| XObjects.InjectedMapsBox | InyectarXObjects.py:156-191 | the injected matrix maps the XObject's box corners onto the corners of the bounding box of its transformed corners |
| XObjects.InlinePieces | InyectarXObjects.py:147-197 | the loop over usages concatenates the piece of each usage, skipping unknown names, images, boxless and zero-size XObjects |
| XObjects.ReadParts | InyectarXObjects.py:126-132 | an array's content is each readable part followed by a newline, unreadable parts skipped |
| XObjects.InlineXObjects | InyectarXObjects.py:104-224 | every page is replaced by its injected form and the number of pages is kept |
| XObjects.InlinePage | InyectarXObjects.py:124-220 | one page of the loop becomes its injected form: a page without contents or XObjects is left alone, otherwise the inlined forms are appended after a newline when there are any |
| XObjects.InjectionAppends | InyectarXObjects.py:216-220 | a page that changes keeps its original content followed by a newline at the start of its new single stream |
| Contours.AngleAt | DibujarContornosCuadrados.py:31-58 | the angle at the middle point is 180 degrees when either vector is zero, and otherwise the angle between the two vectors leaving the middle point |
| Contours.Wrap | DibujarContornosCuadrados.py:105-109 | stepping round the contour with `%` always lands on an existing vertex |
| Contours.SuccessorSteps | DibujarContornosCuadrados.py:107-109 | the successor scan takes at least the first step and at most one full turn |
| Contours.Successor | DibujarContornosCuadrados.py:105-109 | the successor index is a vertex of the contour |
| Contours.SuccessorFirstFar | DibujarContornosCuadrados.py:107-111 | the scan stops at the first vertex at least `min_distance` away, or back at the vertex itself, and every vertex it steps over is nearer than `min_distance` |
| Contours.RemovalCriterion | DibujarContornosCuadrados.py:103-145 | a vertex is removed only when the predecessor and the successor are both at least `min_distance` away, everything between it and the successor is near, and the turn is at least the threshold or at most 10 degrees |
| Contours.ScanSuccessor | DibujarContornosCuadrados.py:105-109 | the inner loop stops at the successor the scan specification chooses |
| Contours.EvaluateVertex | DibujarContornosCuadrados.py:103-143 | one evaluation removes the vertex exactly when the removal criterion holds |
| Contours.SubseqByRemove | DibujarContornosCuadrados.py:145 | popping a vertex keeps the result an order-preserving selection of the original vertices |
| Contours.NextAt | DibujarContornosCuadrados.py:148-151 | after a pop the index stays put and otherwise advances, wrapping to 0 past the end, and always names a vertex of the list that is left |
| Contours.EvaluateAndStep | DibujarContornosCuadrados.py:103-151 | one pass of the loop body removes the vertex exactly when the removal test holds, pops it, and moves the index as the source does |
| Contours.LoopStep | DibujarContornosCuadrados.py:103-153 | one pass with its counters leaves the rest of the loop's result unchanged, counts a removal only when a vertex is popped, and keeps the list an order-preserving selection of the contour |
| Contours.RemoveAlignedLoop | DibujarContornosCuadrados.py:89-158 | the loop, with its two breaks, returns what the loop specification from the start state returns, keeps at least two vertices in order and removes at most half of them, rounded up |
| Contours.EvalsFollowRule | DibujarContornosCuadrados.py:97-145 | every evaluation the loop makes is on a list of at least three vertices, at an index inside it, and removes exactly when the removal test holds there |
| Contours.EvalsStart | DibujarContornosCuadrados.py:92 | the first evaluation is of the starting list at the starting index |
| Contours.EvalsLinked | DibujarContornosCuadrados.py:145-151 | each evaluation works on the list the previous one left, at the index it moved to |
| Contours.EvalsEnd | DibujarContornosCuadrados.py:97-161 | the loop's result is the list the last evaluation left, or the starting list when there was none |
| Contours.EvalsBound | DibujarContornosCuadrados.py:97 | either nothing more is evaluated, or the evaluations already made plus those still to come are at most twice the length of the list |
| Contours.SimplifyTrace | DibujarContornosCuadrados.py:86-161 | the evaluations of one call start at vertex 0 of the input, each removes its vertex exactly when the removal test holds on the list as it stood, each works on the list its predecessor left, there are at most twice as many as vertices, and the result is what the last one left |
| Contours.RemoveAlignedVertices | DibujarContornosCuadrados.py:72-161 | the result is the simplification the evaluation trace describes; contours under three vertices come back unchanged; otherwise it keeps at least two vertices in their original order and removes at most half of them, rounded up |
| ContourHierarchy.KeptIndices | DibujarContornosCuadrados.py:203-208 | the kept indices are valid and strictly increasing |
| ContourHierarchy.KeptSound | DibujarContornosCuadrados.py:204 | every kept contour's area reaches the minimum |
| ContourHierarchy.KeptComplete | DibujarContornosCuadrados.py:203-206 | every contour whose area reaches the minimum is kept |
| ContourHierarchy.IndexIn | DibujarContornosCuadrados.py:206 | the position of a kept index in the kept list holds that index |
| ContourHierarchy.RowsOf | DibujarContornosCuadrados.py:207 | the filtered hierarchy holds, in order, the rows of the kept contours |
| ContourHierarchy.FilterByArea | DibujarContornosCuadrados.py:197-208 | the filtering loop returns the kept indices, the index map built from them and their hierarchy rows |
| ContourHierarchy.IndexMapInverse | DibujarContornosCuadrados.py:206 | for increasing kept indices the index map sends each kept index, and only those, to its position in the kept list |
| ContourHierarchy.RemapRows | DibujarContornosCuadrados.py:211-218 | the in-place loop rewrites each link to the new index of a kept contour and every other link to -1 |
| ContourHierarchy.RemapRow | DibujarContornosCuadrados.py:214-218 | each of a row's four links becomes the position of its contour among the kept ones, or -1 when it is -1 or not kept |
| ContourHierarchy.DistinctIndex | DibujarContornosCuadrados.py:215-216 | with increasing kept indices the index map's value is the unique position of the index |
| ContourHierarchy.RemappedLinksValid | DibujarContornosCuadrados.py:213-218 | every re-indexed link is -1 or the index of a kept contour |
| ContourHierarchy.Leaves | DibujarContornosCuadrados.py:223-226 | the leaves are at most the filtered contours |
| ContourHierarchy.KeepLeaves | DibujarContornosCuadrados.py:224 | the comprehension keeps, in order, the contours whose re-indexed first child is -1 |
| ContourHierarchy.Filtered | DibujarContornosCuadrados.py:205 | one filtered contour per kept index |
| ContourHierarchy.SelectContours | DibujarContornosCuadrados.py:186-226 | the selection keeps the leaves of the re-indexed hierarchy among the contours of at least a two-thousandth of the image area |
| ContourHierarchy.SimplifyLeaf | DibujarContornosCuadrados.py:235-238 | replacing one more selected contour by its simplification extends the simplified prefix and leaves the rest unchanged |
| ContourHierarchy.LoadContours | DibujarContornosCuadrados.py:186-238 | each selected contour is replaced by its simplification with threshold 170 and minimum distance 10: the evaluation trace's result, unchanged under three vertices, otherwise an order-preserving selection of at least two vertices that removes at most half |
| Grid.MinOf | ExtraerEstructuraDeTabla.py:13-14 | `min` of a non-empty list is one of its elements and no element is smaller |
| Grid.Widths | ExtraerEstructuraDeTabla.py:10 | the widths of the detected cells, one per cell in order |
| Grid.Heights | ExtraerEstructuraDeTabla.py:11 | the heights of the detected cells, one per cell in order |
| Grid.ThresholdX | ExtraerEstructuraDeTabla.py:13-17 | the horizontal threshold is 5 without cells, and otherwise half the width of some cell and at most half of every cell's width |
| Grid.ThresholdY | ExtraerEstructuraDeTabla.py:14-18 | the vertical threshold is 5 without cells, and otherwise half the height of some cell and at most half of every cell's height |
| Grid.Insert | ExtraerEstructuraDeTabla.py:21-22 | inserting into an increasing sequence keeps it strictly increasing and adds exactly the new value |
| Grid.SortedDistinct | ExtraerEstructuraDeTabla.py:21-22 | `sorted(set(...))` is strictly increasing, holds exactly the input's values and is no longer than the input |
| Grid.Groups | ExtraerEstructuraDeTabla.py:25-34 | there are no more runs than values, at least one run exactly when there is a value, and no run is empty |
| Grid.GroupsFlatten | ExtraerEstructuraDeTabla.py:29-34 | the runs put back together are the input, in order |
| Grid.GroupsLast | ExtraerEstructuraDeTabla.py:31 | the last value of the last run is the last input value |
| Grid.GroupsWithin | ExtraerEstructuraDeTabla.py:31-32 | consecutive values of a run are within the threshold |
| Grid.GroupsApart | ExtraerEstructuraDeTabla.py:31-34 | the first value of a run is farther than the threshold from the last value of the run before it |
| Grid.GroupsIncreasing | ExtraerEstructuraDeTabla.py:29-34 | for increasing input each run is increasing and lies between the first and last input values |
| Grid.GroupsOrdered | ExtraerEstructuraDeTabla.py:29-34 | for increasing input every run starts after the previous one ends |
| Grid.Lines | ExtraerEstructuraDeTabla.py:35 | one grid line per run |
| Grid.GroupCoordinates | ExtraerEstructuraDeTabla.py:25-35 | the grouping loop returns the truncated mean of every run of the grouping specification |
| Grid.RunMeans | ExtraerEstructuraDeTabla.py:35 | the comprehension returns, run for run, the truncated mean of each run |
| Grid.MeanWithinRun | ExtraerEstructuraDeTabla.py:35 | the truncated mean of an increasing run lies between its first and last values |
| Grid.LinesIncreasing | ExtraerEstructuraDeTabla.py:25-39 | the grid lines of increasing non-negative coordinates are strictly increasing, no more than the coordinates, and lie within their range |
| Grid.MakeMesh | ExtraerEstructuraDeTabla.py:5-62 | the mesh holds the two thresholds, the lines from the sorted distinct coordinates and as many columns and rows as lines |
| Grid.Xs | ExtraerEstructuraDeTabla.py:21 | the x coordinates of the cells, one per cell in order |
| Grid.Ys | ExtraerEstructuraDeTabla.py:22 | the y coordinates of the cells, one per cell in order |
| Grid.MeshLinesWithinCells | ExtraerEstructuraDeTabla.py:21-39 | the vertical lines are strictly increasing, at most as many as distinct x coordinates, and each lies between the x coordinates of two detected cells |
| Grid.BuildGrid | RenderizarTablaHTML.py:188-197 | the nested loops build one row per horizontal line and one cell per vertical line, each cell the one the grid specification gives |
| Grid.ExtentsTile | RenderizarTablaHTML.py:194-195 | for increasing lines below the edge every extent is positive and the extents from a line on add up to the distance to the edge |
| Grid.RowWidthsTile | RenderizarTablaHTML.py:192-196 | the cells of a grid row have positive widths that add up to the image width minus the first line |
| TableStructure.MatchAt | ExtraerEstructuraDeTabla.py:77-82 | a match is found only when there are detected cells |
| TableStructure.MatchFirst | ExtraerEstructuraDeTabla.py:77-82 | the match is the id of the first detected cell within both thresholds, and there is none exactly when no detected cell is within them |
| TableStructure.ColSpanFrom | ExtraerEstructuraDeTabla.py:105-111 | the colspan never shrinks and the span stays inside the table |
| TableStructure.RowSpanFrom | ExtraerEstructuraDeTabla.py:114-120 | the rowspan never shrinks and the span stays inside the table |
| TableStructure.ColSpanStops | ExtraerEstructuraDeTabla.py:106-111 | the colspan loop passes only cells whose match is falsy (none or id 0) and stops at the table's edge or at a truthy match |
| TableStructure.RowSpanStops | ExtraerEstructuraDeTabla.py:115-120 | the rowspan loop passes only cells of the anchor's column whose match is falsy and stops at the edge or at a truthy match |
| TableStructure.Rect | ExtraerEstructuraDeTabla.py:137-148 | the rectangle of an anchor holds exactly the positions inside its rowspan and colspan |
| TableStructure.PaintRow | ExtraerEstructuraDeTabla.py:138-147 | painting a row keeps its length |
| TableStructure.Paint | ExtraerEstructuraDeTabla.py:128-147 | painting a rectangle keeps the table's shape |
| TableStructure.Step | ExtraerEstructuraDeTabla.py:92-148 | the visit of one grid position keeps the table's shape |
| TableStructure.RowPass | ExtraerEstructuraDeTabla.py:91-148 | the visits of a row keep the table's shape |
| TableStructure.Initial | ExtraerEstructuraDeTabla.py:74 | the initial table has the grid's dimensions |
| TableStructure.Pass | ExtraerEstructuraDeTabla.py:90-148 | the visits of the first rows keep the table's shape |
| TableStructure.GrowRight | ExtraerEstructuraDeTabla.py:105-111 | the colspan loop returns the specified colspan and adds the cells it passes to the taken set |
| TableStructure.GrowDown | ExtraerEstructuraDeTabla.py:114-120 | the rowspan loop returns the specified rowspan and adds the cells it passes to the taken set |
| TableStructure.CoverCells | ExtraerEstructuraDeTabla.py:138-148 | the inner marking loop writes the covered value over one row's range, leaves the rest and adds the range to the taken set |
| TableStructure.PaintRect | ExtraerEstructuraDeTabla.py:128-148 | the anchor write and the marking loops paint the rectangle and add its cells other than the anchor to the taken set |
| TableStructure.Visit | ExtraerEstructuraDeTabla.py:92-148 | one visit skips taken and unmatched positions and otherwise writes the anchor and its rectangle as the step specification says |
| TableStructure.BuildStructure | ExtraerEstructuraDeTabla.py:67-159 | the nested loops return the table of the visit-by-visit specification |
| TableStructure.VisitRow | ExtraerEstructuraDeTabla.py:91-159 | the inner loop over the columns of one row leaves the table and the taken set the specification gives for that row's visits, left to right |
| TableLayout.PaintKeepsCells | ExtraerEstructuraDeTabla.py:128-147 | painting an anchor keeps every cell blank, a well-formed anchor or covered, and anchors only at visited positions |
| TableLayout.PaintKeepsOwned | ExtraerEstructuraDeTabla.py:136-148 | after painting every covered cell still lies in the rectangle of an anchor with its id and center |
| TableLayout.StepKeeps | ExtraerEstructuraDeTabla.py:92-148 | a visit keeps the cell invariant |
| TableLayout.ColSpanPassesFree | ExtraerEstructuraDeTabla.py:106-111 | the corrected colspan loop passes no taken cell |
| TableLayout.NewRectDisjoint | ExtraerEstructuraDeTabla.py:96-120 | with the corrected loops a new rectangle shares no cell with an earlier one |
| TableLayout.PaintedOwners | ExtraerEstructuraDeTabla.py:128-148 | painting a fresh rectangle leaves the earlier rectangles and their cells as they were |
| TableLayout.PaintKeepsDisjoint | ExtraerEstructuraDeTabla.py:128-148 | painting a fresh rectangle keeps the rectangles disjoint |
| TableLayout.PaintKeepsFilled | ExtraerEstructuraDeTabla.py:128-148 | painting a fresh rectangle keeps every rectangle filled with its own covered cells, all taken |
| TableLayout.StepKeepsGuarded | ExtraerEstructuraDeTabla.py:92-148 | with the corrected loops a visit keeps the rectangles disjoint and filled |
| TableLayout.RowPassKeeps | ExtraerEstructuraDeTabla.py:91-148 | the visits of a row keep the invariants |
| TableLayout.PassKeeps | ExtraerEstructuraDeTabla.py:90-148 | the visits of every row keep the invariants |
| TableLayout.StructureCells | ExtraerEstructuraDeTabla.py:67-159 | every cell of the structure is blank, a well-formed anchor or covered, and every covered cell lies in an anchor's rectangle with its id and center |
| TableLayout.GuardedStructureTiles | ExtraerEstructuraDeTabla.py:67-159 | with the span loops stopping at taken cells, rectangles never overlap and each is filled by covered cells carrying its id and center |
| TableLayout.Overlapping | ExtraerEstructuraDeTabla.py:67-82 | the 2x2 example grid has the shape the builder indexes |
| TableLayout.AsWrittenOverlap | ExtraerEstructuraDeTabla.py:104-120 | as written, on the 2x2 example two rectangles own the bottom-right cell, so the rectangles are not disjoint |
| HtmlTable.AppendCells | RenderizarTablaHTML.py:76-79 | the inner loop appends, after what was there, exactly the `<td>` pieces of the row's shown cells |
| HtmlTable.GenerateHtml | RenderizarTablaHTML.py:54-85 | the serialiser returns the document of the piece-level specification |
| HtmlTable.ShownCells | RenderizarTablaHTML.py:78 | the shown cells of a row are exactly its cells with positive rowspan and colspan, no more than the row |
| HtmlTable.CellPiecesShown | RenderizarTablaHTML.py:76-79 | a row prints exactly the `<td>` of each shown cell, in order |
| HtmlTable.BlocksAppend | RenderizarTablaHTML.py:73-80 | a further row adds its own `<tr>` block after the earlier ones |
| HtmlTable.RowPiecesBlocks | RenderizarTablaHTML.py:73-80 | the outer loop's pieces are the `<tr>` blocks of the rows, in order |
| HtmlTable.PiecesCount | RenderizarTablaHTML.py:73-80 | the rows contribute an opening and a closing tag each plus one piece per shown cell |
| HtmlTable.TableHtmlFrame | RenderizarTablaHTML.py:69-83 | the document opens with `<html><body><table` and ends with `</table></body></html>` |
| HtmlTable.ConcatPrefix | RenderizarTablaHTML.py:69-83 | appending pieces only extends the document |
| HtmlTable.EmptyRow | RenderizarTablaHTML.py:74-80 | a row without shown cells prints an empty `<tr>` block |
| HtmlTable.HtmlFileName | RenderizarTablaHTML.py:104 | the file name ends in `.html` and its stem holds no backslash and no point |
| HtmlTable.HtmlFileNameOf | RenderizarTablaHTML.py:104 | for a Windows path `dir\stem.ext` the file name is `stem.html` |
| HtmlTable.LastPieceAfter | RenderizarTablaHTML.py:104 | the last piece of a split is what follows the last separator |
| StableSort.WithKeyAppend | ExtraerTablasSinTextoPDF.py:361 | the elements with a given key in two concatenated sequences are those of the first followed by those of the second |
| StableSort.InsertPerm | ExtraerTablasSinTextoPDF.py:361 | inserting adds exactly the element: the result is one longer and a permutation of the input plus the element |
| StableSort.InsertSorted | ExtraerTablasSinTextoPDF.py:361 | inserting into a sorted sequence keeps it sorted by the tuple order |
| StableSort.InsertWithKey | ExtraerTablasSinTextoPDF.py:361 | among the elements of any one key, the inserted element comes after those already present, in their order |
| StableSort.SortFacts | DetectarCentroidesDeCeldas.py:26-29 | `list.sort` with a two-number key returns a permutation of its input, sorted by the tuple order, with elements of equal key in their original order |
| TextRemoval.CloseEnd | ExtraerTablasSinTextoPDF.py:76 | the end of a lazy `(...)\s*Tj` or `[...]\s*TJ` match lies after its start and inside the line |
| TextRemoval.ShowMatchAt | ExtraerTablasSinTextoPDF.py:76 | a text-showing match at a position ends after it and inside the line |
| TextRemoval.FirstShow | ExtraerTablasSinTextoPDF.py:106 | the leftmost text-showing match at or after a position, and none exactly when no position there starts one |
| TextRemoval.StripShowFromShape | ExtraerTablasSinTextoPDF.py:106 | the substitution never lengthens the line, leaves a line without matches as it was, shortens one with a match, and brings in no new character |
| TextRemoval.StripShowChangesIffShow | ExtraerTablasSinTextoPDF.py:106 | cutting the text out changes a line exactly when the line shows text |
| TextRemoval.StripShowKeepsChars | ExtraerTablasSinTextoPDF.py:106 | a character absent from a line is absent after the cut, so no newline appears |
| TextRemoval.ProcessContent | ExtraerTablasSinTextoPDF.py:80-110 | the line loop returns the content of the line-by-line specification, or the `float` error |
| TextRemoval.TraceFails | ExtraerTablasSinTextoPDF.py:98-103 | once a positioning operand fails to parse, the whole content fails |
| TextRemoval.ProcessedLines | ExtraerTablasSinTextoPDF.py:96-107 | processing fails exactly when some line has a malformed `Td`/`Tm` operand; otherwise each line is kept, in order, with its text cut out |
| TextRemoval.ContentKeepsLines | ExtraerTablasSinTextoPDF.py:96-110 | the result has as many lines as the content and each line loses exactly its text |
| TextRemoval.ContentWithoutTextUnchanged | ExtraerTablasSinTextoPDF.py:96-110 | content that shows no text and has well-formed positioning comes back as it was |
| TableText.MapCells | ExtraerTablasSinTextoPDF.py:271-279 | one converted cell per detected cell, in order, each keeping its id |
| TableText.ConvertCoordinates | ExtraerTablasSinTextoPDF.py:226-282 | the conversion loop returns the converted cells and the effective rectangle, or the division error for an image without width or height |
| TableText.ConvertedInverse | ExtraerTablasSinTextoPDF.py:250-282 | the effective rectangle is the area grown by the margins, the cells keep count and ids, and with non-zero scales mapping back to the image recovers every cell's position and size |
| TableText.MapCellsAt | ExtraerTablasSinTextoPDF.py:273-279 | each converted cell is its detected cell scaled and shifted to the effective rectangle |
| TableText.WholeImageMapsOntoRect | ExtraerTablasSinTextoPDF.py:253-276 | a box covering the whole image maps exactly onto the effective rectangle |
| TableText.InsideImageMapsInsideRect | ExtraerTablasSinTextoPDF.py:253-276 | a cell inside the image lands inside the effective rectangle |
| TableText.OwnerFirst | ExtraerTablasSinTextoPDF.py:304-311 | a fragment's cell is the first in list order whose closed box holds its point, and there is none exactly when no box holds it |
| TableText.OwnerIsId | ExtraerTablasSinTextoPDF.py:300-310 | a fragment's cell is one of the dict's keys |
| TableText.KeyOrder | ExtraerTablasSinTextoPDF.py:300 | the dict's keys are the cell ids, each once, in order of first appearance |
| TableText.FindOwner | ExtraerTablasSinTextoPDF.py:304-311 | the inner loop finds the first cell whose box holds the point |
| TableText.CollectFragments | ExtraerTablasSinTextoPDF.py:300-311 | the buckets are keyed by exactly the cell ids and each holds, in order, the fragments whose first enclosing cell has that id |
| TableText.FragmentGoesToOwner | ExtraerTablasSinTextoPDF.py:303-311 | a fragment goes to the bucket of its owner and to no other |
| TableText.LinesExtend | ExtraerTablasSinTextoPDF.py:369-370 | a word within the tolerance of the previous word joins the current line |
| TableText.LinesStart | ExtraerTablasSinTextoPDF.py:366-373 | a word farther than the tolerance from the previous one starts a new line |
| TableText.LinesSplitAtGaps | ExtraerTablasSinTextoPDF.py:362-375 | the lines put together are the words in order, each line non-empty with neighbours within 5 of each other, and consecutive lines more than 5 apart |
| TableText.GroupLines | ExtraerTablasSinTextoPDF.py:362-375 | the grouping loop returns the lines of the specification |
| TableText.JoinCell | ExtraerTablasSinTextoPDF.py:315-317 | the text of one cell is its bucket sorted by `(y, x)`, joined by spaces or by lines, and stripped |
| TableText.CellTexts | ExtraerTablasSinTextoPDF.py:314-317 | the per-cell loop maps every bucket's id, and only those, to its joined text |
| TableText.FillContents | ExtraerTablasSinTextoPDF.py:320-326 | the filling loop returns the table with every shown cell's content replaced by its id's text |
| TableText.FilledChangesOnlyShownContent | ExtraerTablasSinTextoPDF.py:320-326 | only the content of shown cells changes, becoming the id's text or "" when the id has none or is missing; covered cells are untouched |
| TableText.FilledIdempotent | ExtraerTablasSinTextoPDF.py:320-326 | filling twice with the same texts is filling once |
| TableText.FilledAgrees | ExtraerTablasSinTextoPDF.py:326 | filling depends only on what each id maps to |
| TableText.Assign | ExtraerTablasSinTextoPDF.py:288-328 | collection, joining and filling together give the table of the assignment specification |
| TableText.AssignText | ExtraerTablasSinTextoPDF.py:288-328 | `asignar_texto_a_estructura` joins each cell's fragments with spaces |
| TableText.AssignWords | ExtraerTablasSinTextoPDF.py:331-392 | `asignar_texto_a_estructura_new` places each word at its centre and joins each cell's words into lines |
| TableText.StrayFragmentNoEffect | ExtraerTablasSinTextoPDF.py:303-311 | a fragment outside every cell changes nothing |
| TableText.CellOrder | ExtraerTablasSinTextoPDF.py:361 | a cell's words are sorted by `(y, x)`, a permutation of the bucket, with ties in their original order |
| TableText.KeptIndicesSpec | ExtraerTablasSinTextoPDF.py:485-494 | the surviving indices are increasing and are exactly the tables not inside another table |
| TableText.FilterContained | ExtraerTablasSinTextoPDF.py:485-495 | the comparison loops return the tables not inside another one, in their original order |
| TableText.MarkContained | ExtraerTablasSinTextoPDF.py:485-493 | the nested comparison loops mark exactly the tables that lie inside another table |
| TableText.IdenticalTablesBothDiscarded | ExtraerTablasSinTextoPDF.py:477-494 | two tables with the same well-formed bbox discard each other |
| TableText.Largest | ExtraerTablasSinTextoPDF.py:485-494 | some table has the largest size among the first ones |
| TableText.InsideGrows | ExtraerTablasSinTextoPDF.py:477-483 | a box inside a different box is strictly smaller |
| TableText.DistinctTablesKeepOne | ExtraerTablasSinTextoPDF.py:485-494 | among pairwise different tables at least one survives |
| CellDetection.Accepted | DetectarCentroidesDeCeldas.py:113-172 | the cells come in acceptance order with ids 1, 2, … and there are no more cells than contours |
| CellDetection.DetectCells | DetectarCentroidesDeCeldas.py:111-189 | the acceptance loop with its running bounds returns the boxes and centroids of the accepted cells, sorted by the key as written `(cX, id)`, and the table extent of the specification |
| CellDetection.Widen | DetectarCentroidesDeCeldas.py:153-160 | the four running bounds after an accepted cell are the previous extent grown by that cell's box |
| CellDetection.ExtentBounds | DetectarCentroidesDeCeldas.py:115-160 | the extent is `(inf, 0, inf, 0)` without cells, and otherwise the least left and top edge and the greatest right and bottom edge of the cells, never below 0 |
| CellDetection.AcceptedStep | DetectarCentroidesDeCeldas.py:140-172 | a rejected contour consumes no id; an accepted one becomes the cell with the next id |
| CellDetection.AcceptedFromContours | DetectarCentroidesDeCeldas.py:140-170 | every cell comes from a contour with four vertices, all turn angles in [80, 100] and a non-zero moment |
| CellDetection.SortedIds | DetectarCentroidesDeCeldas.py:175-188 | the sorted cells, whatever the key, are the accepted ones, carrying each id 1..n |
| CellDetection.DetectWrittenOrderAndIds | DetectarCentroidesDeCeldas.py:26-29 | as written, the two output lists have equal length, carry the same id at each position and exactly the ids 1..n, are ordered by centroid x with ties by id, and the extent is that of the cells |
| CellDetection.DetectOrderAndIds | DetectarCentroidesDeCeldas.py:26-29 | the intended detection: the two output lists have equal length, carry the same id at each position and exactly the ids 1..n, and are ordered by centroid `(cY, cX)` with ties in acceptance order |
| CellDetection.WrittenKeyReordersRows | DetectarCentroidesDeCeldas.py:28 | as written the key is `(cX, id)`: on two cells the lower-left one is listed before the upper-right one, which `(cY, cX)` lists first |
| CellDetection.WrittenDetectionReordersRows | DetectarCentroidesDeCeldas.py:175-188 | on two accepted square contours, centroids (50, 10) and (10, 50), the detection as written lists cell 2 first, where the intended order lists cell 1 first |
| CellDetection.FlattenBetween | DetectarCentroidesDeCeldas.py:37-43 | compositing a channel over white keeps it a byte, never darkens it, keeps it when opaque and makes it white when transparent |
| CellDetection.CleanImage | DetectarCentroidesDeCeldas.py:65-69 | the clean-up writes white where the colour mask is set and copies the pixel elsewhere |
| CellDetection.CleanPixelRule | DetectarCentroidesDeCeldas.py:65-69 | cleaning changes a pixel only where the colour mask is set, and then to white; cleaning twice is cleaning once; a byte pixel stays a byte pixel |
| TableClosing.ParseSide | VerificarTablaCerrada.py:55-76 | a side is recognised exactly for "top", "bottom", "left" and "right"; any other axis returns without drawing |
| TableClosing.Depth | VerificarTablaCerrada.py:45-71 | the band is 20 rows or columns deep, or the whole image when it is thinner |
| TableClosing.ScanBand | VerificarTablaCerrada.py:54-73 | the band scan finds nothing exactly when the band has no dark pixel, and otherwise returns the least and greatest depth and position of its dark pixels |
| TableClosing.ExtremesUnique | VerificarTablaCerrada.py:59-82 | the minimum and maximum indices of the dark-pixel mask are unique: two scans that both hold them are equal |
| TableClosing.EdgeLineShift | VerificarTablaCerrada.py:59-74 | the line as written, at `y = min` on the top and left and `h - (20 - max)` on the bottom and right, sits `20 - depth` rows or columns before the intended band row on the far sides and nowhere else differs; on images at least 20 deep the two lines coincide |
| TableClosing.AsWrittenFarCoordEscapes | VerificarTablaCerrada.py:61-64 | on a 10-row image whose lowest dark pixel is in row 9 the line as written is at row -1, outside the image, and paints no pixel, while the intended line is at row 9 |
| TableClosing.EdgeLinePlacement | VerificarTablaCerrada.py:55-90 | the intended line runs along the side, between the extreme dark positions, through the dark row or column nearest the edge, inside the band and the image |
| TableClosing.DrawLine | VerificarTablaCerrada.py:84-90 | drawing blackens exactly the pixels on the line and leaves every other pixel as it was |
| TableClosing.SideResultUnique | VerificarTablaCerrada.py:54-90 | what one side draws is determined by the picture it is drawn on |
| TableClosing.DetectDarkEdge | VerificarTablaCerrada.py:31-90 | an unknown axis draws nothing; a known side draws nothing exactly when its band has no dark pixel, otherwise the line as written through the band's extremes; the new picture is the old one with exactly that line painted black |
| TableClosing.CloseTable | VerificarTablaCerrada.py:92-107 | the sides run top, bottom, left, right; each side's line is what that side draws on the picture the earlier sides left, and each picture after a side is the previous one with that side's line painted black |
| TableClosing.ClosedPicture | VerificarTablaCerrada.py:103-107 | after the four sides a pixel is black if it lies on any of the four drawn lines and otherwise keeps its first colour |
| CropRegions.NpIndex | CortarPDFEnColumnas.py:231 | an index is valid exactly from `-n` to `n - 1`, a negative one counting from the end |
| CropRegions.SliceBound | CortarPDFEnColumnas.py:161 | a slice bound is clipped into the axis and kept when already inside it |
| CropRegions.Slice | CortarPDFEnColumnas.py:161 | a slice selects an ordered range inside the axis |
| CropRegions.RegionWhiteInside | CortarPDFEnColumnas.py:150-162 | for a rectangle inside the page the region is white exactly when every pixel of the truncated rectangle reaches the threshold in all channels |
| CropRegions.EmptyRegionWhite | CortarPDFEnColumnas.py:160-162 | an empty region counts as white |
| CropRegions.InExceptionHalfOpen | CortarPDFEnColumnas.py:165-179 | a page without an exception area has no exception pixel, and the exception rectangle includes its left and top edges but not its right and bottom ones |
| CropRegions.RowPoints | CortarPDFEnColumnas.py:215-216 | `range(lo, hi)` along a row yields the points from `lo` up to `hi - 1`, none when `hi <= lo` |
| CropRegions.ColPoints | CortarPDFEnColumnas.py:217-218 | `range(lo, hi)` along a column yields the points from `lo` up to `hi - 1`, none when `hi <= lo` |
| CropRegions.Clamp | CortarPDFEnColumnas.py:202 | a coordinate becomes a non-negative integer |
| CropRegions.PerimeterScanIff | CortarPDFEnColumnas.py:228-236 | with every point on the page the scan never fails, and reports a collision exactly when some point outside the exception area has a channel mean other than 255 |
| CropRegions.SkippedPageClean | CortarPDFEnColumnas.py:195-199 | a page in the skipped set never reports a collision |
| CropRegions.PerimeterOmitsSharedSides | CortarPDFEnColumnas.py:210-218 | the left header half examines no right column, the right header half no left column, and the mobile footer only its top row |
| CropSession.Normalise | CortarPDFEnColumnas.py:421-423 | the press and release points give a rectangle with left <= right and top <= bottom whose edges are the points' coordinates |
| CropSession.HeaderHalf | CortarPDFEnColumnas.py:126-147 | reports whether both header halves are defined and, only then, whether the rectangle is the left or the right half |
| CropSession.HeaderSelectionSplits | CortarPDFEnColumnas.py:432-437 | selecting the header stores the selection as the left half and a right half that starts at the selection's right edge, at the same height, up to the view's right end; the selection is then recognised as the left half and no other area changes |
| CropSession.ColumnSelectionSplits | CortarPDFEnColumnas.py:440-446 | selecting the left column also sets the right column beside it up to the view's right end and the footer spanning the view below it; no other area changes |
| CropSession.SelectUnknownOrRepeated | CortarPDFEnColumnas.py:427-454 | a key that names no area leaves every area unchanged, and repeating the same selection changes nothing |
| CropSession.Toggled | CortarPDFEnColumnas.py:533-536 | the page changes membership and every other page keeps it |
| CropSession.ToggleTwice | CortarPDFEnColumnas.py:524-536 | toggling the same page twice restores the skipped set |
| CropSession.DecideAdd | CortarPDFEnColumnas.py:249-290 | a request is accepted exactly when its area is set, its page index is within `-n .. n-1`, the region is not white and the perimeter scan finds no collision |
| CropSession.RunSnoc | CortarPDFEnColumnas.py:643-692 | running the requests plus one more is running the requests and then that one, unless the run already failed |
| CropSession.RunStops | CortarPDFEnColumnas.py:254 | once an index error stops a prefix of the requests, the whole run fails |
| CropSession.RunAppendsAccepted | CortarPDFEnColumnas.py:278-290 | a run only appends to the crops made before, never clears the collision flag, and every appended crop comes from an accepted request with that page and area |
| CropSession.NormalPlanEnds | CortarPDFEnColumnas.py:662-692 | in normal mode both header halves are requested first on page 0 when both are set, and the footer last on page -1 |
| CropSession.ExceptionPageOrder | CortarPDFEnColumnas.py:672-688 | on a page with an exception, the column parts above it end at its top, the exception comes next, and the parts below it start at its bottom; at most two of each |
| CropSession.NormalPagesInRange | CortarPDFEnColumnas.py:671-691 | every page request of the normal plan is for a page of the document |
| CropSession.MobilePagesShape | CortarPDFEnColumnas.py:643-660 | in mobile mode each page gives at most one column crop plus the footer on the last page, and every request is for a page of the document |
| CropSession.Session.constructor | CortarPDFEnColumnas.py:84-108 | a new session has no areas, no skipped pages, no crops and no collision flag |
| CropSession.Session.Select | CortarPDFEnColumnas.py:411-455 | the selection is normalised and stored under the area being edited; the skipped pages and crops do not change |
| CropSession.Session.ToggleSkip | CortarPDFEnColumnas.py:524-536 | the page is toggled in the skipped set unless the checkbox is being refreshed; nothing else changes |
| CropSession.Session.CheckPerimeter | CortarPDFEnColumnas.py:182-236 | the loop returns what the perimeter specification gives: no collision on a skipped page, a collision at the first non-white pixel outside the exception area, an error for a pixel outside the image |
| CropSession.Session.CropAndAdd | CortarPDFEnColumnas.py:239-290 | the new crops are what one step of the request gives, and the call fails exactly when that step raises an index error; the areas and skipped pages do not change |
| CropSession.Session.ProcessPdf | CortarPDFEnColumnas.py:627-692 | the new crops are the result of running the plan for the mode in order, and the call fails exactly when that run does |
| CropSession.Session.RunRequests | CortarPDFEnColumnas.py:627-692 | issuing requests in order leaves the crops the run of those requests computes, and fails exactly when that run does |
| CropSession.Session.ConfirmAndProcess | CortarPDFEnColumnas.py:578-624 | without the required areas nothing is processed and, in normal mode, the crops are dropped; otherwise the flag is reset, the plan runs, and the PDF is generated exactly when no perimeter was crossed, the crops being dropped when one was |
| CropSession.ClickFooterCutsColumn | CortarPDFEnColumnas.py:472-481 | with the mobile column set, a click makes the footer run from the clicked height to the column's bottom across the column, changes no other area, and a skipped page's column crop then ends at the clicked height |
| CropSession.Session.Click | CortarPDFEnColumnas.py:458-485 | a click with data while the mobile footer is edited sets the footer from the clicked height; any other click changes nothing |
| FolderNames.ReplaceForbidden | CortarPDFEnColumnas.py:39 | each of the nine characters Windows forbids becomes `_`, every other character is kept in place, and none of the nine remains |
| FolderNames.DropCombining | CortarPDFEnColumnas.py:43 | the kept characters come from the input and none is a combining mark |
| FolderNames.ReplaceEnye | CortarPDFEnColumnas.py:44 | `ñ` becomes `n` and `Ñ` becomes `N`, position by position |
| FolderNames.Upper | CortarPDFEnColumnas.py:53 | the ASCII lower-case letters become upper-case, position by position |
| FolderNames.Take | CortarPDFEnColumnas.py:56 | a cut keeps a prefix of at most the limit and keeps a name that already fits |
| FolderNames.FinishBounded | CortarPDFEnColumnas.py:47-56 | the finished name has at most 255 characters and is never a reserved device name |
| FolderNames.FinishKeepsAllowed | CortarPDFEnColumnas.py:47-56 | stripping, the `_safe` suffix and the cut add no forbidden character |
| FolderNames.FinishUnchanged | CortarPDFEnColumnas.py:47-56 | a name with no trailing space or dot, not reserved and within 255 characters is kept as it is |
| FolderNames.CleanFolderNameBounded | CortarPDFEnColumnas.py:29-56 | the cleaned name has at most 255 characters and is not a reserved name, whatever the decomposition does |
| FolderNames.FullWidthSolidusSlipsThrough | CortarPDFEnColumnas.py:39-44 | as written, a full-width solidus survives the replacement and the decomposition turns it into `/` in the result |
| FolderNames.CleanFolderNameFixedValid | CortarPDFEnColumnas.py:29-56 | with the replacement after the decomposition, the name contains no forbidden character, has at most 255 characters and is not reserved |
| FolderNames.FullWidthSolidusReplaced | CortarPDFEnColumnas.py:39-44 | with the replacement after the decomposition, the same name becomes `a_b` |
| PlainText.ExtractText | ObtenerTextoPlano.py:61-101 | the loop over the lines followed by the sort and the join returns the stream's text as the collection specification gives it, or the error of a malformed operand |
| PlainText.CollectStep | ObtenerTextoPlano.py:73-97 | one line of the loop: ignored lines change nothing, a malformed operand is the error, and a new non-empty text is recorded once at the current height |
| PlainText.Failing | ObtenerTextoPlano.py:78-87 | once a malformed operand raises on some line, the whole extraction fails |
| PlainText.CollectedWell | ObtenerTextoPlano.py:66-97 | the recorded texts are non-empty and pairwise distinct, the seen set is exactly the recorded texts, and there is at most one record per line |
| PlainText.IgnoredLineNoEffect | ObtenerTextoPlano.py:74-75 | a line containing `/Artifact`, `BT` or `ET` changes nothing, not even the position |
| PlainText.RecordsIffNew | ObtenerTextoPlano.py:77-97 | a line sets the position by `Tm` then shifts it by `Td`, and adds a record exactly when it holds `TJ` and a parenthesised group whose stripped text is non-empty and new, the record being the current height and that text |
| PlainText.OrderedTopDown | ObtenerTextoPlano.py:100 | the records are a permutation of the collected ones in non-increasing height, records of equal height in collection order |
| PlainText.TextsOf | ObtenerTextoPlano.py:101 | the texts of the records, one per record in the same order |
| PlainText.StreamOrEmpty | ObtenerTextoPlano.py:119-132 | a stream that cannot be decoded gives the empty text, a decoded one the extracted text |
| PlainText.FontFrom | ObtenerTextoPlano.py:36-37 | the result is the name of the leftmost `/Name Tf` in the line, and there is none exactly when no position holds one |
| PlainText.FontRun | ObtenerTextoPlano.py:36 | the run of letters, digits and `#` is maximal |
| PlainText.MarkdownLineShape | ObtenerTextoPlano.py:44-55 | a line's Markdown is the line between a prefix and a suffix plus a newline: `1. ` exactly for a numbered line, `- ` for a lettered or bulleted one, `**` around a bold one, nothing otherwise, in that priority |
| PlainText.AttributesMarkdown | ObtenerTextoPlano.py:11-59 | the loop over pages, content objects and lines returns the document's Markdown specification |
| PlainText.AppendObjects | ObtenerTextoPlano.py:26-55 | appends the Markdown of each stream object of a page, skipping other objects |
| PlainText.AppendLines | ObtenerTextoPlano.py:34-55 | appends the Markdown of each line of one stream |
| PlainText.ObjectsStep | ObtenerTextoPlano.py:26-32 | a non-stream object adds nothing, and a stream adds the Markdown of its lines |
| PlainText.DocumentPages | ObtenerTextoPlano.py:19-57 | a page without contents adds nothing, and a page with contents adds its objects' Markdown followed by a blank line |
| TextCleanup.Run | PasarTextoPlanoAMarkdown.py:43-44 | the run of one character from a position is maximal |
| TextCleanup.LineEnd | PasarTextoPlanoAMarkdown.py:46 | the line ends at its first newline, or at the end of the text |
| TextCleanup.LastBoundary | PasarTextoPlanoAMarkdown.py:46 | the greedy `.+` backs off to the last word boundary in range, and there is none exactly when no position in range is a boundary |
| TextCleanup.CollapseNoPair | PasarTextoPlanoAMarkdown.py:43-44 | after removing runs of two or more underscores, or collapsing runs of newlines, no two of those characters are adjacent |
| TextCleanup.InsertNoPair | PasarTextoPlanoAMarkdown.py:45-47 | a substitution that inserts text without underscores or newlines creates no adjacent pair of them |
| TextCleanup.CleanTextShape | PasarTextoPlanoAMarkdown.py:36-48 | the cleaned text has no two adjacent underscores, no blank line and no leading or trailing whitespace |
| TextCleanup.SubNoMatch | PasarTextoPlanoAMarkdown.py:43-47 | text in which the pattern matches nowhere is left unchanged |
| TextCleanup.ReachedMatch | PasarTextoPlanoAMarkdown.py:43-47 | a match that no earlier match overlaps has its replacement in the output |
| TextCleanup.PaginaHeaded | PasarTextoPlanoAMarkdown.py:45 | every `Pagina`, whitespace character and digits is written with `# ` in front |
| TextCleanup.SplitBy | PasarTextoPlanoAMarkdown.py:43-47 | a substitution that does not write its match back splits at a point no match runs over: the output is that of the text before it followed by that of the rest |
| TextCleanup.ShiftBy | PasarTextoPlanoAMarkdown.py:43-47 | such a substitution, from a position on, depends only on the text from there on |
| TextCleanup.HyphenPrefix | PasarTextoPlanoAMarkdown.py:47 | a `-` cannot end a match of `-\s` that starts before it, so the substitution splits in front of every `-` |
| TextCleanup.HyphenShift | PasarTextoPlanoAMarkdown.py:47 | the `-\s` substitution from a position on is that of the text from there on |
| TextCleanup.HyphenBulleted | PasarTextoPlanoAMarkdown.py:47 | every hyphen followed by a whitespace character, wherever it stands, becomes `* `: the output is the substitution of the text before it, `* `, and the substitution of the text after the whitespace character |
| TextCleanup.HeadingInLine | PasarTextoPlanoAMarkdown.py:46 | a heading match never runs past the end of its line |
| TextCleanup.HeadingHeaded | PasarTextoPlanoAMarkdown.py:46 | a heading match at the start of a line is written with `## ` in front |
| MarkerReplacement.Selected | RemplazarTablasDeMarkdown.py:34 | the selected entries are exactly the directory's entries whose name ends with the extension |
| MarkerReplacement.KeyOfStem | RemplazarTablasDeMarkdown.py:40 | the key drops the name's first character and cuts it at the extension, so a stem without dots comes back whole after the prefix |
| MarkerReplacement.TableNameKey | RemplazarTablasDeMarkdown.py:40 | the file `tabla_p_t.html` gives the key `Llave_Unica_Tabla_p_t` |
| MarkerReplacement.ImageNameKey | RemplazarImagenesDeMarkdown.py:22 | the file `Imagen_p_n.txt` gives the key `Llave_Unica_Imagen_p_n` |
| MarkerReplacement.TableFileKey | EliminarYEscribirLlavesDeTablas.py:290 | the key derived from a table's file name is the marker written into the PDF for that table, without its parentheses |
| MarkerReplacement.ImageFileKey | EliminarYEscribirImagenes.py:77 | the key derived from an image's text file name is the marker written into the PDF for that image, without its parentheses |
| MarkerReplacement.TablePairs | RemplazarTablasDeMarkdown.py:16-23 | one `(key, content)` pair per table file, the content being the file with newlines turned into spaces and then converted |
| MarkerReplacement.ImagePairs | RemplazarImagenesDeMarkdown.py:15-22 | one `(key, content)` pair per text file, the content being the converted file |
| MarkerReplacement.ReplaceTables | RemplazarTablasDeMarkdown.py:29-46 | the loop replaces every occurrence of each table key, in directory order, by the table's Markdown between blank lines |
| MarkerReplacement.ReplaceImages | RemplazarImagenesDeMarkdown.py:6-32 | the loop replaces every occurrence of each image key, in directory order, by the image text's Markdown between blank lines |
| MarkerReplacement.ReplaceFirst | RemplazarTablasDeMarkdown.py:44 | replacing starts at the leftmost occurrence and resumes after the replaced key |
| MarkerReplacement.ApplyAllAbsent | RemplazarTablasDeMarkdown.py:37-44 | when no key occurs in the text, the text is returned unchanged |
| MarkerReplacement.ApplyOne | RemplazarTablasDeMarkdown.py:44 | one pair replaces its key by the content between blank lines |
| MarkerReplacement.ApplyTwo | RemplazarTablasDeMarkdown.py:37-44 | two pairs act one after the other, the second on the result of the first |
| MarkerReplacement.PrefixKeySplitsMarker | RemplazarTablasDeMarkdown.py:37-44 | as written, when a key is a prefix of a later key the earlier replacement splits the later marker, leaving its last character after the wrong table |
| MarkerReplacement.LongestFirst | RemplazarTablasDeMarkdown.py:37 | the reordered pairs are a permutation of the pairs |
| MarkerReplacement.LongestFirstOrder | RemplazarTablasDeMarkdown.py:37-44 | in the corrected order keys come by non-increasing length, so no key is replaced before a longer key it is a prefix of |
| MarkerReplacement.LongestFirstKeepsMarker | RemplazarTablasDeMarkdown.py:37-44 | in the corrected order the longer marker is replaced whole by its own table |
| MarkerReplacement.ReplaceInOrder | RemplazarTablasDeMarkdown.py:37-44 | the loop applies the pairs one after another in the given order |
| MarkerReplacement.ReplaceTablesLongestFirst | RemplazarTablasDeMarkdown.py:29-46 | the corrected table replacement applies the same pairs longest key first |
| MarkerReplacement.ReplaceImagesLongestFirst | RemplazarImagenesDeMarkdown.py:6-32 | the corrected image replacement applies the same pairs longest key first |
| PolicyHeader.SqueezeShape | OrganizarEncabezadoMD.py:41 | squeezing keeps every visible character in order, writes no whitespace but single spaces, and starts or ends with a space exactly when the input starts or ends with whitespace |
| PolicyHeader.StripVisible | OrganizarEncabezadoMD.py:41 | stripping drops only whitespace |
| PolicyHeader.CollapseShape | OrganizarEncabezadoMD.py:41-48 | the cleaned title or text keeps the visible characters, has no surrounding whitespace, no two spaces in a row and no whitespace but the space |
| PolicyHeader.First | OrganizarEncabezadoMD.py:44 | the leftmost position in range where the test holds, and none exactly when it holds nowhere |
| PolicyHeader.FirstId | OrganizarEncabezadoMD.py:44 | the leftmost identifier match, and none exactly when no position matches |
| PolicyHeader.IdShape | OrganizarEncabezadoMD.py:44 | an identifier match starts a word with PTAR or PCAM in any case, goes on with optional whitespace and ends at the last digit of the number that follows |
| PolicyHeader.TitleIdMeaning | OrganizarEncabezadoMD.py:44-45 | the identifier is `Desconocido` exactly when the cleaned title holds no match |
| PolicyHeader.FirstVersion | OrganizarEncabezadoMD.py:63-72 | a version is found exactly when some position matches the pattern, and it is a non-empty run of digits |
| PolicyHeader.Defaults | OrganizarEncabezadoMD.py:51-58 | the dictionary starts with all six fields |
| PolicyHeader.SearchFields | OrganizarEncabezadoMD.py:69-72 | the search loop returns the dictionary the search specification gives |
| PolicyHeader.SearchedKey | OrganizarEncabezadoMD.py:69-72 | a searched field whose pattern matches holds its stripped group, every other field keeps its value |
| PolicyHeader.ParseDates | OrganizarEncabezadoMD.py:75-79 | the date loop returns the dictionary the date specification gives |
| PolicyHeader.DatedKey | OrganizarEncabezadoMD.py:75-79 | Emisión and Fecha Vigencia are rewritten when known and understood by the parser, every other field keeps its value |
| PolicyHeader.Fields | OrganizarEncabezadoMD.py:51-79 | the final dictionary has all six fields |
| PolicyHeader.FieldsMeaning | OrganizarEncabezadoMD.py:41-79 | each field is what its rule says: Nombre from the cleaned title, Fecha Actualización never changes, an unmatched field keeps its default, a matched one holds its stripped group, and only the two dates go through the parser |
| PolicyHeader.VersionDigits | OrganizarEncabezadoMD.py:54-72 | Versión is either the default or a non-empty run of digits |
| PolicyHeader.ExtractPolicyData | OrganizarEncabezadoMD.py:5-98 | the method returns the header the specification gives for the title and the text |
| PolicyHeader.HeaderLayout | OrganizarEncabezadoMD.py:82-96 | the header starts with `#`, the cleaned title and a full stop, then lists the six fields in order, each in its own paragraph, without surrounding whitespace |
| SpanStyles.RgbPacks | ObtenerAtributos.py:26-30 | each colour component is a byte, and packing them again, red highest, gives the low 24 bits of the colour |
| SpanStyles.ListKindsExclusive | ObtenerAtributos.py:33-35 | a span's text is at most one of a bullet, a numbered and a lettered item |
| SpanStyles.DescribePadded | ObtenerAtributos.py:19-46 | surrounding whitespace in a span's text changes nothing in its description |
| SpanStyles.Styles | ObtenerAtributos.py:48-51 | one result per page, numbered from 1, describing the page's spans in block, line and span order |
| SpanStyles.BlockSpansConcat | ObtenerAtributos.py:16-18 | blocks keep their order and each block's spans stay together |
| SpanStyles.LineSpansConcat | ObtenerAtributos.py:17-18 | lines keep their order and each line's spans stay together |
| SpanStyles.MapSpansConcat | ObtenerAtributos.py:18-46 | describing spans commutes with concatenation |
| SpanStyles.AppendSpans | ObtenerAtributos.py:18-46 | the span loop appends each span's description in order |
| SpanStyles.AppendLines | ObtenerAtributos.py:17-46 | the line loop appends the descriptions of each line's spans in order |
| SpanStyles.PageContent | ObtenerAtributos.py:13-46 | the block loop describes every span of the page in order |
| SpanStyles.ExtractStyles | ObtenerAtributos.py:5-53 | the page loop returns the specified result for every page |

## Left out

- PDF container I/O (pikepdf, fitz, pdfplumber) is not modelled: opening, saving, decompression, `remove_unreferenced_resources`, page copying and rasterising. Streams arrive already decoded, pages as values, and a rendered page as a `Raster` value.
- Image processing is left to OpenCV and NumPy and not modelled: colour conversion, `inRange`, thresholds, `findContours`, `approxPolyDP`, moments, bounding rectangles and contour areas. Their outputs are inputs to the model. Dilation and erosion (`unir_lineas_cercanas`) are also not modelled.
- The arccos of `calcular_angulo` is floating-point trigonometry. It is an abstract angle function into [0, 180]; `calcular_distancia` is compared through squared integer distances.
- The numeric-operand regular expressions (`Tm`, `Td`, `cm`, `m`, `l`, `re`) are a `Scanner` parameter that yields the captured operand strings. Python's `float` on them is modelled, including its ValueError.
- The GUI is not modelled: matplotlib selectors and buttons, page navigation, `toggle_modo_movil`, `actualizar_botones`, `draw_rectangles`, `show_page`, the Tk dialog, the PyQt viewers and every plot or debug print. `set_selector_key` becomes the key argument of `Select` and `Click`.
- `apply_crop_with_pikepdf` and the later stages it starts are not modelled. `ConfirmAndProcess` returns whether that step would run.
- External conversions are parameters: markdownify, pandoc and `dateparser`. So are the patterns for Emisión, Ciudades and Fecha Vigencia.
- Unicode database lookups are parameters: NFKD decomposition and the combining-mark test.
- File writes and directory listings are values: a listing is a sequence of entries in the order the directory gives them.
- EnviarImagenesAChatGPT.py and Extraer_Imagenes.py are not part of this model: they are a network request and image file I/O.
- `combinar_y_fusionar_streams`, `convertir_pdf_a_texto` and `convertir_pdf_a_markdown` are not modelled; they only glue the modelled parts to PDF and pandoc calls.
- `procesar_xobjects` and the page loop of `eliminar_texto_preciso` are not modelled; they are pikepdf traversal around the modelled `procesar_contenido`.
- `image_to_HTML` calls `generar_estructura_tabla_new`, which is not defined in ExtraerEstructuraDeTabla.py. The model uses `generar_estructura_tabla`, which is.
- PlainText.ExtractText: stops at the joined text. The regular-expression clean-ups that follow it (ObtenerTextoPlano.py:104-112) are not modelled, because they depend on Unicode `\w` and `\s` classes and back-references.
- TextCleanup.HeadingHeaded: states the `## ` prefix only for a heading match at the start of a line. A later `OFERTA ` on the same line may be covered by the first match's `.+`, so no prefix is promised for it.
- TextCleanup.IsWord: `\w` is modelled on Latin-1 (ASCII letters and digits, `_` and the Latin-1 letters); Python also counts every other Unicode letter and digit.
- Common.DigitRun: `\d` is modelled as the ASCII digits; Python also matches other Unicode decimal digits.
- PolicyHeader.FoldsTo: `re.IGNORECASE` is modelled as ASCII case folding; the accented `ó` of the patterns is listed explicitly. Python also folds a few non-ASCII characters, such as the Kelvin sign, onto ASCII letters.
- FolderNames.Upper: `str.upper` is modelled on ASCII letters only. The reserved-name test can therefore differ for a non-ASCII letter whose upper case is an ASCII letter.
- TableClosing.DrawLine: draws a line one pixel wide; `cv2.line` with thickness 2 also paints a neighbouring row or column.
- CropSession.Session.ProcessPdf: computes the whole plan before issuing the first request. The source interleaves them, which is equivalent, because a crop changes neither the areas nor the skipped pages.
- Python floats are modelled as reals, so rounding is not modelled. Pixel and contour coordinates are integers.
- ImageKeys.CoordText, TableKeys.KeyBlock and XObjects.Piece: Python's `str` of a float, used for the coordinates of the key text blocks and the `cm` operands of an inlined form, is the `show` parameter. The shortest round-trip digits and the exponent notation are therefore not modelled, and neither is any property of the printed numbers. Every member that builds such text passes `show` on.

## Findings

| source | as written | input that shows it | evidently intended | confidence | as-written member | corrected member |
|---|---|---|---|---|---|---|
| ExtraerEstructuraDeTabla.py:104-120 | the colspan and rowspan loops extend over cells an earlier anchor already covers | a 2x2 grid with the top-left, top-right and bottom-left cells detected: the bottom-right cell is owned by two rectangles | spans stop at cells already taken, so rectangles tile the table | not executed | TableLayout.AsWrittenOverlap | TableLayout.GuardedStructureTiles |
| VerificarTablaCerrada.py:64,74 | the bottom and right line sits at `h - (20 - max)` | a 10-row image whose lowest dark pixel is in row 9 gives row -1 | the line goes through the deepest dark row or column, inside the image. `DetectDarkEdge` keeps the written placement; `IntendedEdgeLine` is the correction, equal to it on images at least 20 pixels deep (`EdgeLineShift`) | not executed | TableClosing.AsWrittenFarCoordEscapes | TableClosing.EdgeLinePlacement |
| CortarPDFEnColumnas.py:39-44 | forbidden characters are replaced before the NFKD decomposition, which can produce them | the name `a／b` (full-width solidus) gives `a/b` | the cleaned name contains no forbidden character | not executed | FolderNames.FullWidthSolidusSlipsThrough | FolderNames.CleanFolderNameFixedValid |
| RemplazarTablasDeMarkdown.py:37-44 | keys are replaced in directory order with `str.replace` | the keys `Llave_Unica_Tabla_1_1` and `Llave_Unica_Tabla_1_10`, the shorter first: the longer marker becomes the first table followed by `0` | every marker is replaced whole by its own table | not executed | MarkerReplacement.PrefixKeySplitsMarker | MarkerReplacement.LongestFirstKeepsMarker |
| DetectarCentroidesDeCeldas.py:28 | the cells are sorted by `(cX, id)` | cell 1 at (cX 50, cY 10) and cell 2 at (cX 10, cY 50): cell 2 is listed first | top to bottom, then left to right, by `(cY, cX)` as the comment says. `Detect` keeps the written order; `DetectIntended` is the correction | not executed | CellDetection.WrittenDetectionReordersRows | CellDetection.DetectOrderAndIds |
