# PDF2Markdown conversion modal, modelled in Dafny

PDF2Markdown is an Obsidian plugin. It sends a PDF to an OCR service and
turns the structured answer into a Markdown note in the vault. The answer is
a list of pages, each with optional markdown text and optional images. This
project models the client-side part that runs in the conversion modal
(`src/modals/pdfToMD.modal.ts`):

- **The submit guards.** Without a selected file, or with an empty
  destination folder, the handler shows one notice and stops. No upload is
  attempted.
- **Page aggregation.** Every page with truthy markdown adds its text and
  one space to the body. Every truthy `imageBase64` is pushed onto one flat
  image list, in page order and then in image order.
- **Path derivation.**
  - The base name is the file name with a trailing, case-sensitive `.pdf`
    removed.
  - The vault root is removed at its first occurrence in the chosen folder.
    The match is not anchored to the start.
  - Leading slashes are then stripped.
  - The output folder is that relative folder followed directly by the base
    name, with no separator.
  - The note goes to `<folder>/<base>.md`. Image `i` goes to
    `<folder>/img-i.jpeg`.
- **`createMarkdownFile`.**
  - The folder is created only if it is absent. A refused creation is
    noticed and ends the method.
  - The images are written in ascending order. The payload is the segment
    between the first and the second comma. An image whose payload is
    missing, whose decoding throws or whose write is refused gets a notice,
    and the loop carries on.
  - The note is created last. A refusal is noticed and not rethrown.
  - The submit handler then shows its success notice and closes the modal,
    even after a refused folder or note.

## Layout

| file | module | contents |
|---|---|---|
| `wrappers.dfy` | `Wrappers` | `Option` |
| `decimal.dfy` | `Decimal` | the decimal numeral that `${i}` yields for an image index, and its round trip |
| `paths.dfy` | `Paths` | base name, first-occurrence removal, slash stripping, output folder, note and image paths, `split(",")` and the image payload |
| `pages.dfy` | `Pages` | `Page` and `Image`, the body and image-list functions with their lemmas, and the imperative `Aggregate` loop proved against them |
| `storage.dfy` | `Storage` | the `Vault` class: folders, files, the log of requests, and `exists`, `createFolder`, `writeBinary` and `create` |
| `materialise.dfy` | `Materialise` | the observable `World`, the functions `CreateMarkdownFileSpec` and `SubmitSpec` that define each run's effect, their lemmas, and the `ConversionModal` class |

The modal's methods mutate the vault and the modal's own fields. Each
method's `ensures` says that the `World` snapshot afterwards is exactly what
the spec function gives for the `World` before. The lemmas about the spec
functions state what the code promises.

Host refusals come in as a `Faults` value:

- whether `createFolder` is refused;
- the set of image positions whose `writeBinary` is refused;
- whether `create` is refused.

Base64 decoding is a `Decoder` parameter that may fail. The OCR service's
answer is a parameter `response`, which is `None` when the request threw.

### Behaviour of the code worth knowing

- A page's text is always followed by a space, the last page included:
  `"Hello "` then `"World"` gives `"Hello  World "` (`Pages.TwoPageScenario`).
- The image payload is `split(",")[1]`: only the text between the first
  comma and the next one (`Paths.PayloadOfStopsAtSecondComma`).
- A refused folder creation returns before any image or note is written
  (`Materialise.FolderRefusalWritesNothing`).
- A refused note is reported as a notice and not rethrown; the handler then
  shows the success notice and closes the modal. A refused folder creation
  is followed by the success notice too
  (`Materialise.ConvertedAfterFolderRefusal`).

## Model

| member | source | states |
|---|---|---|
| Pages.Aggregate | src/modals/pdfToMD.modal.ts:104-119 | the nested loop leaves `pageContent` equal to `Body(pages)` and `images` equal to `ImageList(pages)` |
| Pages.BodyAppend | src/modals/pdfToMD.modal.ts:107-110 | the body of two runs of pages is the concatenation of their bodies, so pages contribute in document order |
| Pages.BodyCons | src/modals/pdfToMD.modal.ts:107-110 | read from the front, the body is the first page's text (markdown and one space, or nothing) followed by the body of the rest |
| Pages.BodySkipsBlankPage | src/modals/pdfToMD.modal.ts:108-110 | a page whose markdown is missing or empty adds nothing to the body, not even a space |
| Pages.BodyEndsWithSpace | src/modals/pdfToMD.modal.ts:109 | a non-empty body always ends with a space: the last page's text is followed by one too |
| Pages.BodyLength | src/modals/pdfToMD.modal.ts:107-110 | the body's length is the total length of the truthy markdown texts plus one per such page |
| Pages.ImageListAppend | src/modals/pdfToMD.modal.ts:112-118 | the image list of two runs of pages is the concatenation of their lists |
| Pages.ImageListCons | src/modals/pdfToMD.modal.ts:112-118 | the first page's images come before those of the later pages |
| Pages.KeptImagesCons | src/modals/pdfToMD.modal.ts:113-117 | within a page, the first image's contribution comes before the rest's |
| Pages.KeptImagesLength | src/modals/pdfToMD.modal.ts:113-117 | a page contributes exactly as many strings as it has images with a truthy data string |
| Pages.ImageListLength | src/modals/pdfToMD.modal.ts:112-118 | the image list is as long as the number of truthy images in the whole document |
| Pages.KeptImagesMembership | src/modals/pdfToMD.modal.ts:113-117 | a string is in a page's contribution if and only if one of the page's images carries it and it is non-empty |
| Pages.ImageListMembership | src/modals/pdfToMD.modal.ts:112-118 | a string is in the image list if and only if some page holds it as a truthy image (both directions) |
| Pages.TwoPageScenario | src/modals/pdfToMD.modal.ts:104-119 | a page `"Hello "` with one image followed by a page `"World"` without images gives the body `"Hello  World "` (two spaces, one trailing) and the one-element image list |
| Paths.BaseName | src/modals/pdfToMD.modal.ts:167 | the result is a prefix of the file name; it differs from it exactly when the name ends with `.pdf`, and then the name is the result followed by `.pdf` |
| Paths.BaseNameExamples | src/modals/pdfToMD.modal.ts:167 | `report.pdf` gives `report`; `report.PDF` is unchanged (case-sensitive); `a.pdf.pdf` loses only the last `.pdf`; `pdf` is unchanged |
| Paths.IndexOfFrom | src/modals/pdfToMD.modal.ts:171 | the result is an occurrence of the pattern at or after `from` with none between `from` and it; `None` means there is no occurrence at or after `from` (for `IndexOf`, which starts at 0, none at all) |
| Paths.RemoveFirst | src/modals/pdfToMD.modal.ts:171 | with no occurrence the string is unchanged; otherwise re-inserting the pattern at its first occurrence gives back the original |
| Paths.RemoveFirstOfPrefix | src/modals/pdfToMD.modal.ts:171 | when the vault root is a prefix of the folder, exactly that prefix is removed |
| Paths.RemoveFirstOfLonger | src/modals/pdfToMD.modal.ts:171 | a root longer than the folder path never matches, so the folder is unchanged |
| Paths.StripLeadingSlashes | src/modals/pdfToMD.modal.ts:172 | the result is a suffix of the input; everything removed is `/`; the result does not start with `/` |
| Paths.RelativeFolder | src/modals/pdfToMD.modal.ts:169-172 | the relative folder never starts with `/`; when the root does not occur, only the leading slashes are removed |
| Paths.RelativeFolderOfDefault | src/modals/pdfToMD.modal.ts:169-172 | the default destination `/Conversions/` with a longer vault root becomes `Conversions/` |
| Paths.RelativeFolderOfVaultPrefix | src/modals/pdfToMD.modal.ts:169-172 | a folder `root + rest` inside the vault becomes `rest` without its leading slashes |
| Paths.RelativeFolderUnanchored | src/modals/pdfToMD.modal.ts:171 | the root is removed where it first occurs, even mid-path: `/a/v/` with root `/v` gives `a/` |
| Paths.OutputFolder | src/modals/pdfToMD.modal.ts:174-176 | both branches are plain concatenation of the relative folder and the base name: no separator is ever inserted, and an empty relative folder gives the base name |
| Paths.OutputFolderExamples | src/modals/pdfToMD.modal.ts:174-176 | `Notes/`+`x` is `Notes/x`, the empty folder gives `x`, and `Notes`+`x` runs together as `Notesx` |
| Decimal.NatToString | src/modals/pdfToMD.modal.ts:192 | the image index is rendered as a non-empty string of digits without a leading zero; a single digit exactly below ten |
| Decimal.NatToStringRoundTrip | src/modals/pdfToMD.modal.ts:192 | reading the numeral back gives the index |
| Decimal.NatToStringInjective | src/modals/pdfToMD.modal.ts:192 | distinct indices give distinct numerals |
| Paths.ImagePathInjective | src/modals/pdfToMD.modal.ts:192-193 | two image positions share a path only if they are the same position |
| Paths.MarkdownPathIsNoImagePath | src/modals/pdfToMD.modal.ts:187-193 | the note's path is never an image path, so the note never overwrites an image |
| Paths.Split | src/modals/pdfToMD.modal.ts:195 | at least one part; no part holds the separator; exactly one part if and only if the separator does not occur |
| Paths.JoinSplit | src/modals/pdfToMD.modal.ts:195 | joining the parts with the separator gives back the string |
| Paths.SplitJoin | src/modals/pdfToMD.modal.ts:195 | splitting a join of separator-free parts gives back the parts |
| Paths.SplitWithout | src/modals/pdfToMD.modal.ts:195 | a string without the separator splits into itself alone |
| Paths.SplitAfterFirst | src/modals/pdfToMD.modal.ts:195 | the text before the first separator is the first part, and the rest is split on its own |
| Paths.PayloadOf | src/modals/pdfToMD.modal.ts:195 | the payload is undefined if and only if the image string has no comma; a payload never holds a comma |
| Paths.PayloadOfDataUrl | src/modals/pdfToMD.modal.ts:195 | a data URL `head,payload` yields `payload` |
| Paths.PayloadOfStopsAtSecondComma | src/modals/pdfToMD.modal.ts:195 | with a second comma only the segment up to it is taken, not the rest of the string |
| Storage.Vault.Exists | src/modals/pdfToMD.modal.ts:178 | true if and only if a folder or a file is at the path |
| Storage.Vault.CreateFolder | src/modals/pdfToMD.modal.ts:180 | succeeds unless refused; adds the folder exactly on success; files unchanged; the request is logged either way |
| Storage.Vault.WriteBinary | src/modals/pdfToMD.modal.ts:197-200 | succeeds unless refused; stores the bytes at the path exactly on success; folders unchanged; the request is logged either way |
| Storage.Vault.Create | src/modals/pdfToMD.modal.ts:209 | succeeds unless refused; stores the text at the path exactly on success; folders unchanged; the request is logged either way |
| Materialise.AttemptImage | src/modals/pdfToMD.modal.ts:194-205 | an image is undecoded if and only if it has no payload or decoding throws; a stored image was not refused and holds the decoded payload; a rejected one was refused |
| Materialise.SelectExactly | src/modals/pdfToMD.modal.ts:189-206 | the selected positions are in range and satisfy the predicate, every satisfying position is selected, and they are strictly ascending |
| Materialise.WriteImagesStep | src/modals/pdfToMD.modal.ts:190 | the loop over one more position is the loop so far followed by that position's step |
| Materialise.WriteImagesFrame | src/modals/pdfToMD.modal.ts:189-206 | the image loop changes no folder, no upload and not the modal's open state |
| Materialise.WriteImagesKeepsPaths | src/modals/pdfToMD.modal.ts:189-206 | the image loop removes no file |
| Materialise.WriteImagesCalls | src/modals/pdfToMD.modal.ts:189-206 | the image loop makes one write request per decoded image, in ascending order of position |
| Materialise.WriteImagesNotices | src/modals/pdfToMD.modal.ts:189-206 | the image loop shows one notice per failed image, in ascending order; a failure does not stop the later positions |
| Materialise.WriteImagesElsewhere | src/modals/pdfToMD.modal.ts:189-206 | a path that is not one of the loop's image paths is left as it was |
| Materialise.WriteImagesAt | src/modals/pdfToMD.modal.ts:189-206 | image `i` holds its decoded bytes when its attempt succeeded; otherwise its path is left as it was |
| Materialise.WriteCallsAreWrites | src/modals/pdfToMD.modal.ts:197-200 | the image loop's requests are all binary writes, never a folder creation |
| Materialise.FolderRefusalWritesNothing | src/modals/pdfToMD.modal.ts:178-185 | a refused creation of an absent folder writes no file and no folder; the only request is the creation and the only notice `FolderError` |
| Materialise.MaterialisedRequests | src/modals/pdfToMD.modal.ts:161-215 | with a usable folder: the folder exists afterwards; the requests are the folder creation (only when it was absent), then one write per decoded image in ascending order, then the note; the notices are one per failed image, then one for a refused note |
| Materialise.MaterialisedNote | src/modals/pdfToMD.modal.ts:209-214 | with a usable folder, the note holds exactly the body, unless its creation was refused, in which case its path is as before |
| Materialise.MaterialisedImage | src/modals/pdfToMD.modal.ts:190-205 | with a usable folder, `img-i.jpeg` holds the decoded payload of image `i` when that attempt succeeded, whether or not the note is refused; a failed attempt leaves the path as it was |
| Materialise.MaterialisedNothingElse | src/modals/pdfToMD.modal.ts:161-215 | no path other than the note and the image paths changes |
| Materialise.RunLeavesFolder | src/modals/pdfToMD.modal.ts:178-185 | after a run without refusals the output folder exists |
| Materialise.RerunKeepsPath | src/modals/pdfToMD.modal.ts:178-214 | after a run without refusals, a second run on the same input leaves each path as the first run left it, whatever the host refuses the second time |
| Materialise.RerunIsStable | src/modals/pdfToMD.modal.ts:178-214 | after a run without refusals, a second run on the same input leaves folders and files as they were |
| Materialise.RerunRequests | src/modals/pdfToMD.modal.ts:178-185 | the second run never requests a folder creation: only the image writes and the note |
| Materialise.GuardsStopBeforeUpload | src/modals/pdfToMD.modal.ts:91-99 | without a file (checked first), or with an empty folder, the only effect is the matching notice: no upload, no vault change |
| Materialise.FailedResponseWritesNothing | src/modals/pdfToMD.modal.ts:101-136 | a conversion request that throws leaves the vault untouched, shows `ConversionFailed` and keeps the modal open; the upload was still attempted |
| Materialise.SubmitConverted | src/modals/pdfToMD.modal.ts:101-129 | with a file, a folder and an answer, the handler records the upload, runs `createMarkdownFile` on the aggregated body and images, then adds the success notice and closes the modal |
| Materialise.ConvertedAfterFolderRefusal | src/modals/pdfToMD.modal.ts:121-129 | after a refused folder creation nothing is written, yet the notices end with `FolderError`, then `Converted`, and the modal closes |
| Materialise.SubmitWritesDocument | src/modals/pdfToMD.modal.ts:101-129 | end to end, with a usable folder and an accepted note: the note holds the aggregated body, each successfully stored image `i` holds the decoded `i`-th truthy image, the last notice is `Converted` and the modal is closed |
| Materialise.ConversionModal.CreateMarkdownFile | src/modals/pdfToMD.modal.ts:161-215 | the modal and vault end in exactly the state `CreateMarkdownFileSpec` gives for the derived folder and base name |
| Materialise.ConversionModal.EnsureFolder | src/modals/pdfToMD.modal.ts:178-185 | ready exactly when the folder was present or its creation accepted; creation is requested only when it is absent; a refusal adds `FolderError` and changes nothing else |
| Materialise.ConversionModal.WriteAllImages | src/modals/pdfToMD.modal.ts:189-207 | the loop reaches exactly the state of the attempts on positions 0, 1, … in ascending order |
| Materialise.ConversionModal.WriteImage | src/modals/pdfToMD.modal.ts:191-205 | one image: payload, decoding, write; any failure becomes an `ImageError` notice and nothing is stored |
| Materialise.ConversionModal.CreateNote | src/modals/pdfToMD.modal.ts:209-214 | the note is created with the body, or a refusal is turned into `MarkdownError` and not rethrown |
| Materialise.ConversionModal.Submit | src/modals/pdfToMD.modal.ts:87-137 | the modal and vault end in exactly the state `SubmitSpec` gives: guards, upload, aggregation, materialisation, final notice |

## Left out

- The UI is not modelled: the DOM construction, event listeners, the Electron folder dialog and `onClose` (`src/modals/pdfToMD.modal.ts:18-86`, `140-159`, `223-226`). Notices are an abstract log of `Notice` values, without their French texts or the error details they interpolate.
- The missing-API-key branch of `onOpen` (`src/modals/pdfToMD.modal.ts:21-24`) is left out. It opens another modal, which is pure UI flow.
- The OCR pipeline `getJSON` (upload, signed URL, fetch; `src/modals/pdfToMD.modal.ts:217-221`) is left out because it is network I/O. Its answer is the `response` parameter, and any throw becomes `None`. `src/utils/ocrRequests.utils.ts` is not part of this model. The answer is assumed to have the page shape; a malformed answer is not modelled.
- `Buffer.from(…, "base64")` is the uninterpreted `Decoder`. The host's lenient base64 semantics are not modelled. An undefined payload is modelled as a decoding failure, since `Buffer.from(undefined)` throws.
- Why the host refuses a request (permissions, a full disk, `create` on an existing path) is not modelled. Every refusal comes from the `Faults` parameter. A failing `exists` call is not modelled; it would reject `createMarkdownFile` and land in the handler's generic catch.
- Materialise.Notice: the position in `ImageError(i)` is an addition of the model. The source's notice names only the caught error.
- The file submitted for conversion is modelled by its name only. Its bytes are not modelled.
- Concurrency is not modelled: overlapping submits and the interleaving of their awaits. Each call runs to completion.
- Materialise.ConversionModal.uploads and Storage.Vault.calls are ghost logs of requests, kept only for stating properties.
- `src/configs/settings.ts` is a settings tab. Only its default folder `/Conversions/` appears, as the example in `Paths.RelativeFolderOfDefault`.
