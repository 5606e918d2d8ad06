# Images to PDF: a Dafny model of the list updaters and the PDF export

The application is a single React component (`src/App.tsx`). The user picks
image files, reorders them by drag and drop, removes some, and exports the list
as a PDF with one page per image. This project models the logic inside that
component:

- `ImageList` (`image_list.dfy`): the list of `ImageData` entries `(id, url, file)`
  and the updaters App passes to `setImages`. `HandleFileChange` appends the
  picked files. `RemoveImage` filters out an id and reports which object URL is
  revoked. `FirstWithId` is `findIndex`. React state is modelled as a value:
  each updater is a function from the previous list to the next one.
- `Reorder` (`reorder.dfy`): `ArrayMove` (the list move of `@dnd-kit/sortable`:
  take the entry out at `from`, insert it at `to`) and the drag-end updater
  `HandleDragEnd`. `MoveSource` is an independent, index-level description of
  the move that the lemmas relate to `ArrayMove`.
- `PdfExport` (`pdf_export.dfy`): the fit-to-page ratio, the scaled size and the
  centring offsets over exact reals. `PdfDocument` is a small class standing in
  for the jsPDF document: it starts with one empty page, `AddPage` appends a
  page, `AddImage` draws on the last page. `GeneratePdf` is the export loop: it
  draws image `i` on page `i` and adds a page before every image but the first.
- `Wrappers` (`wrappers.dfy`): the `Option` type.

Ids are opaque strings and are not assumed unique. The code draws them from
`Math.random`, so uniqueness only appears as a hypothesis of lemmas, never as a
precondition of an updater.

The code departs in four places from what the application is meant to do. The model follows the
code in the first two. The third is excluded by `HandleDragEnd`'s `requires`, and the fourth is left out:

- Removing an id drops every entry carrying it, not at most one.
  `WithoutUniqueLength` shows the two agree when ids are unique.
- When several entries share the removed id, all of them are dropped
  (src/App.tsx:95) but only the first one's object URL is revoked
  (src/App.tsx:96-97). The other URLs are never released. `RemoveImage`
  reports this one revoked URL.
- A drag in which exactly one of the two ids is not in the list is not a no-op.
  `findIndex` returns -1 for the missing id, and that value goes to `arrayMove`
  unchecked, which reads a negative target as counted from the end. If the
  dragged id is missing, the last entry moves to the target's index. If the
  target id is missing, the dragged entry moves to the end of the list. (With
  both ids missing, the last entry is taken out and put back, so the list is
  unchanged.) The drag library only reports ids taken from the list
  (src/App.tsx:195), so `HandleDragEnd` requires both ids to be present.
- A failed image decode does not abort the export. The load promise only
  listens for `onload` (src/App.tsx:126-128), so a failed decode leaves it
  pending forever.

## Model

| member | source | states |
|---|---|---|
| `ImageList.NewImages` | src/App.tsx:83-88 | one entry per picked file, in file order, carrying that file's id and object URL |
| `ImageList.HandleFileChange` | src/App.tsx:81-91 | no file list: the list is unchanged; otherwise the old entries stay unchanged and in place, the new entries follow in file order, and the length grows by the number of files |
| `ImageList.AddKeepsUniqueIds` | src/App.tsx:84-89 | if the new ids are distinct and not already in use, adding keeps ids unique; the code itself does not ensure that these conditions hold |
| `ImageList.FirstWithId` | src/App.tsx:107-108 | `findIndex` on an id: -1 exactly when no entry has the id, else the index of the first entry with it |
| `ImageList.Without` | src/App.tsx:95 | no entry of the result has the id; every other entry is kept with its multiplicity; the result is a subsequence of the input, so relative order is kept |
| `ImageList.RemoveImage` | src/App.tsx:93-100 | the filtered list as above; a URL is revoked exactly when the id is present, and it is the URL of the first entry with that id |
| `ImageList.WithoutKeeps` | src/App.tsx:95 | every entry left after the filter was in the input and has a different id |
| `ImageList.WithoutAbsent` | src/App.tsx:95 | removing an id that no entry has leaves the list unchanged |
| `ImageList.RemoveTwice` | src/App.tsx:93-100 | removing the same id twice gives the same list as removing it once, and the second call revokes nothing |
| `ImageList.WithoutAppend` | src/App.tsx:89-95 | removal distributes over the append done when files are added |
| `ImageList.WithoutKeepsUniqueIds` | src/App.tsx:95 | removal keeps ids unique |
| `ImageList.WithoutUniqueLength` | src/App.tsx:95-97 | with unique ids, removal drops exactly one entry if the id is present and none otherwise |
| `Reorder.ArrayMove` | src/App.tsx:109 | same length and multiset of entries; the moved entry sits at `to`; removing it from the result gives the input with `from` removed, so all other entries keep their relative order |
| `Reorder.ArrayMoveIndex` | src/App.tsx:109 | entry `k` of the result is input entry `MoveSource(from, to, k)`: entries outside the range between `from` and `to` stay put, and those inside shift by one |
| `Reorder.MoveSourceInjective` | src/App.tsx:109 | distinct result positions come from distinct input positions |
| `Reorder.ArrayMoveInverse` | src/App.tsx:109 | moving the entry back from `to` to `from` restores the list |
| `Reorder.AdjacentMoveSwaps` | src/App.tsx:109 | a move between neighbours, in either direction, swaps them |
| `Reorder.ArrayMoveKeepsUniqueIds` | src/App.tsx:109 | a move keeps ids unique |
| `Reorder.HandleDragEnd` | src/App.tsx:102-112 | no target, or target equal to the dragged id: list unchanged; otherwise the first entry with the dragged id moves to the former index of the first entry with the target id, with the same length and multiset, and the other entries keep their relative order |
| `Reorder.FirstWithIdUnique` | src/App.tsx:107-108 | with unique ids, `findIndex` on an entry's id returns that entry's index |
| `Reorder.DragOntoNeighbourSwaps` | src/App.tsx:102-112 | with unique ids, dragging an entry onto its right-hand neighbour, or that neighbour onto it, swaps the two and keeps ids unique |
| `Reorder.DragBackRestores` | src/App.tsx:102-112 | with unique ids, a drag between two neighbours followed by the drag back restores the list, in both directions (the left entry dragged first, or the right entry dragged first) |
| `PdfExport.Ratio` | src/App.tsx:136 | the factor is positive, the scaled image fits both page bounds, and it reaches at least one of them |
| `PdfExport.RatioIsLargest` | src/App.tsx:136 | every factor that fits the page is at most the ratio, so the ratio is the largest fitting scale |
| `PdfExport.FitToPage` | src/App.tsx:133-141 | scaled width at most the page width, scaled height at most the page height, one of the two equal to its bound, aspect ratio kept (`width * h == height * w`), offsets non-negative and centring (`2x + width == pageWidth`, `2y + height == pageHeight`) |
| `PdfExport.FitToPageUnique` | src/App.tsx:136-138 | the fitted size is the only size that fits the page, touches one bound and keeps the aspect ratio |
| `PdfExport.TwoImageExample` | src/App.tsx:133-141 | on a 210 x 297 page, a 100 x 200 image fills the height at x = 30.75, and a 300 x 100 image fills the width at y = 113.5 |
| `PdfExport.PdfDocument.constructor` | src/App.tsx:119 | a new document has the given page size and one empty page |
| `PdfExport.PdfDocument.AddPage` | src/App.tsx:143-145 | appends one empty page and leaves the existing pages unchanged |
| `PdfExport.PdfDocument.AddImage` | src/App.tsx:147 | appends the drawing to the last page and leaves the other pages unchanged |
| `PdfExport.GeneratePdf` | src/App.tsx:114-150 | an empty list produces no document; otherwise the document is saved as `converted.pdf` and has exactly one page per image, in list order, with page `i` holding only image `i`, fitted and centred |

## Left out

- Rendering, `SortableItem`, CSS transforms and drag styling (src/App.tsx:34-63, 159-226): user interface only.
- dnd-kit sensors, collision detection and `SortableContext` (src/App.tsx:70-79, 189-209): they belong to the drag library. Only the `(activeId, overId)` pair that reaches `handleDragEnd` is modelled.
- `Math.random` id generation and `URL.createObjectURL` (src/App.tsx:85-86): both are nondeterministic browser calls. Ids and URLs are inputs to `HandleFileChange`.
- `URL.revokeObjectURL` (src/App.tsx:97): it releases a browser resource. The model only reports which URL is revoked.
- The asynchronous image decode (src/App.tsx:123-128): the pixel sizes are an input to `GeneratePdf`, aligned with the list. A decode that never completes leaves the export hanging, and that is not modelled.
- The encoding inside jsPDF (page-size query, `addImage` encoding, `save`, src/App.tsx:119, 130-131, 144-150): pages are modelled as sequences of drawing records. The page size is a value fixed when the document is created, as jsPDF's default format is.
- PdfExport.FitToPage: computes with exact reals, not JavaScript doubles, so floating-point rounding of the ratio and offsets is not modelled.
- PdfExport.GeneratePdf: requires positive pixel sizes. With one side 0, `Math.min` picks the other quotient, and the image is drawn with that side 0, centred along it. With both sides 0 the ratio is `Infinity`, and the size and offsets are `NaN`. The `requires` excludes both cases, so neither is modelled.
- The `isGenerating` flag, `try`/`catch`/`finally`, `console.error` and `alert` (src/App.tsx:116-156): they are React state and user notification around asynchronous code. Exclusion of concurrent exports is therefore not modelled.
