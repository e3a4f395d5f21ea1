/**
 * What the conversion modal does once the OCR service has answered: write the
 * images and the note into the vault (`createMarkdownFile`), and the submit
 * handler around it (input guards, aggregation, final notice).
 *
 * The observable state is a `World`: the vault's folders and files, the
 * requests made to the vault, the notices shown to the user, the files
 * submitted for conversion and whether the modal is still open. Spec functions give the
 * World after each step; the modal's methods are proved to reach exactly that
 * World, and the lemmas say what the spec functions promise.
 */
module Materialise {
  import opened Wrappers
  import opened Paths
  import opened Pages
  import opened Storage

  /** The notices the modal shows; an image notice names the failed image's position. */
  datatype Notice =
    | MissingPdf
    | MissingFolder
    | FolderError
    | ImageError(index: nat)
    | MarkdownError
    | Converted
    | ConversionFailed

  /** Which host requests are refused: the folder creation, the image writes at these positions, the note. */
  datatype Faults = Faults(createFolder: bool, writeImage: set<nat>, createMarkdown: bool)

  const NoFaults := Faults(false, {}, false)

  /** Base64 decoding of a payload, left uninterpreted; `None` stands for a throw. */
  type Decoder = string -> Option<seq<bv8>>

  datatype World = World(
    folders: set<string>,
    files: map<string, Content>,
    calls: seq<Call>,
    notices: seq<Notice>,
    uploads: seq<string>,
    open: bool)

  function Get(files: map<string, Content>, path: string): Option<Content> {
    if path in files then Some(files[path]) else None
  }

  /** How the attempt on one image ends. */
  datatype Attempt =
    | Undecoded             // no payload after a comma, or decoding threw: no write request
    | Rejected              // the write request was refused
    | Stored(bytes: seq<bv8>)

  predicate Failed(a: Attempt) { !a.Stored? }

  predicate Requested(a: Attempt) { !a.Undecoded? }

  function AttemptImage(image: string, i: nat, decode: Decoder, faults: Faults): (a: Attempt)
    ensures a.Undecoded? <==> PayloadOf(image).None? || decode(PayloadOf(image).value).None?
    ensures a.Stored? ==> i !in faults.writeImage && Some(a.bytes) == decode(PayloadOf(image).value)
    ensures a.Rejected? ==> i in faults.writeImage
  {
    match PayloadOf(image)
    case None => Undecoded
    case Some(payload) =>
      match decode(payload)
      case None => Undecoded
      case Some(bytes) => if i in faults.writeImage then Rejected else Stored(bytes)
  }

  /** How the attempt on each image ends, by position. */
  function Outcomes(images: seq<string>, decode: Decoder, faults: Faults): seq<Attempt> {
    seq(|images|, i requires 0 <= i < |images| => AttemptImage(images[i], i, decode, faults))
  }

  /** The positions, in ascending order, of the attempts that satisfy `p`. */
  function Select(outs: seq<Attempt>, p: Attempt -> bool): seq<nat> {
    if outs == [] then []
    else
      var n := |outs| - 1;
      Select(outs[..n], p) + (if p(outs[n]) then [n] else [])
  }

  /** `Select` lists exactly the positions satisfying `p`, each once, in ascending order. */
  lemma {:induction false} SelectExactly(outs: seq<Attempt>, p: Attempt -> bool)
    ensures forall k :: 0 <= k < |Select(outs, p)| ==> Select(outs, p)[k] < |outs| && p(outs[Select(outs, p)[k]])
    ensures forall i :: 0 <= i < |outs| && p(outs[i]) ==> i in Select(outs, p)
    ensures forall k, l :: 0 <= k < l < |Select(outs, p)| ==> Select(outs, p)[k] < Select(outs, p)[l]
  {
    if outs != [] {
      var n := |outs| - 1;
      SelectExactly(outs[..n], p);
      var before := Select(outs[..n], p);
      assert |outs[..n]| == n;
      forall k | 0 <= k < |before| ensures before[k] < n && p(outs[before[k]]) {
        assert before[k] < |outs[..n]| && p(outs[..n][before[k]]);
        assert outs[..n][before[k]] == outs[before[k]];
      }
      forall i | 0 <= i < n && p(outs[i]) ensures i in before {
        assert outs[..n][i] == outs[i];
      }
    }
  }

  function ErrorNotices(positions: seq<nat>): seq<Notice> {
    if positions == [] then []
    else ErrorNotices(positions[..|positions| - 1]) + [ImageError(positions[|positions| - 1])]
  }

  function WriteCalls(folder: string, positions: seq<nat>): seq<Call> {
    if positions == [] then []
    else WriteCalls(folder, positions[..|positions| - 1]) + [WriteBinaryCall(ImagePath(folder, positions[|positions| - 1]))]
  }

  /** The effect of the attempt on image `i`. */
  function ImageStep(w: World, folder: string, a: Attempt, i: nat): World {
    var path := ImagePath(folder, i);
    match a
    case Undecoded => w.(notices := w.notices + [ImageError(i)])
    case Rejected => w.(calls := w.calls + [WriteBinaryCall(path)], notices := w.notices + [ImageError(i)])
    case Stored(bytes) => w.(files := w.files[path := Binary(bytes)], calls := w.calls + [WriteBinaryCall(path)])
  }

  /** The attempts on images 0, 1, ... in ascending order. */
  function WriteImages(w: World, folder: string, outs: seq<Attempt>): World {
    if outs == [] then w
    else ImageStep(WriteImages(w, folder, outs[..|outs| - 1]), folder, outs[|outs| - 1], |outs| - 1)
  }

  /** The final request: the note itself. A refusal becomes a notice and is not rethrown. */
  function WriteNote(w: World, path: string, content: string, fail: bool): World {
    var w1 := w.(calls := w.calls + [CreateCall(path)]);
    if fail then w1.(notices := w1.notices + [MarkdownError])
    else w1.(files := w1.files[path := Text(content)])
  }

  function NoteFolder(vaultRoot: string, fileName: string, folderPath: string): string {
    OutputFolder(RelativeFolder(folderPath, vaultRoot), BaseName(fileName))
  }

  predicate Present(w: World, path: string) {
    path in w.folders || path in w.files
  }

  /** The folder step when it succeeds: created only if absent. */
  function WithFolder(w: World, folder: string): World {
    if Present(w, folder) then w
    else w.(folders := w.folders + {folder}, calls := w.calls + [CreateFolderCall(folder)])
  }

  /** The whole of `createMarkdownFile` once the output folder and the base name are derived. */
  function CreateMarkdownFileSpec(
    w: World, folder: string, baseName: string, content: string,
    images: seq<string>, decode: Decoder, faults: Faults): World
  {
    if !Present(w, folder) && faults.createFolder then
      w.(calls := w.calls + [CreateFolderCall(folder)], notices := w.notices + [FolderError])
    else
      var w2 := WriteImages(WithFolder(w, folder), folder, Outcomes(images, decode, faults));
      WriteNote(w2, MarkdownPath(folder, baseName), content, faults.createMarkdown)
  }

  /** The submit handler: guards, then (for a file and a folder) conversion and materialisation. */
  function SubmitSpec(
    w: World, vaultRoot: string, file: Option<string>, folderPath: string,
    response: Option<seq<Page>>, decode: Decoder, faults: Faults): World
  {
    if file.None? then w.(notices := w.notices + [MissingPdf])
    else if folderPath == "" then w.(notices := w.notices + [MissingFolder])
    else
      var w1 := w.(uploads := w.uploads + [file.value]);
      match response
      case None => w1.(notices := w1.notices + [ConversionFailed])
      case Some(pages) =>
        var folder := NoteFolder(vaultRoot, file.value, folderPath);
        var w2 := CreateMarkdownFileSpec(w1, folder, BaseName(file.value), Body(pages), ImageList(pages), decode, faults);
        w2.(notices := w2.notices + [Converted], open := false)
  }

  /** One more position: the attempts on a longer prefix are the attempts on the shorter one, then one step. */
  lemma WriteImagesStep(w: World, folder: string, outs: seq<Attempt>, i: nat)
    requires i < |outs|
    ensures WriteImages(w, folder, outs[..i + 1]) == ImageStep(WriteImages(w, folder, outs[..i]), folder, outs[i], i)
  {
    assert outs[..i + 1][..i] == outs[..i];
  }

  /** The image attempts leave the folders, the uploads and the modal alone. */
  lemma {:induction false} WriteImagesFrame(w: World, folder: string, outs: seq<Attempt>)
    ensures var r := WriteImages(w, folder, outs);
      r.folders == w.folders && r.uploads == w.uploads && r.open == w.open
  {
    if outs != [] {
      WriteImagesFrame(w, folder, outs[..|outs| - 1]);
    }
  }

  lemma ErrorNoticesSnoc(positions: seq<nat>, i: nat)
    ensures ErrorNotices(positions + [i]) == ErrorNotices(positions) + [ImageError(i)]
  {
    assert (positions + [i])[..|positions|] == positions;
  }

  lemma WriteCallsSnoc(folder: string, positions: seq<nat>, i: nat)
    ensures WriteCalls(folder, positions + [i]) == WriteCalls(folder, positions) + [WriteBinaryCall(ImagePath(folder, i))]
  {
    assert (positions + [i])[..|positions|] == positions;
  }

  /** Writes only add or replace files; no path disappears. */
  lemma {:induction false} WriteImagesKeepsPaths(w: World, folder: string, outs: seq<Attempt>)
    ensures w.files.Keys <= WriteImages(w, folder, outs).files.Keys
  {
    if outs != [] {
      WriteImagesKeepsPaths(w, folder, outs[..|outs| - 1]);
    }
  }

  /** One write request per decoded image, in ascending order of position. */
  lemma {:induction false} WriteImagesCalls(w: World, folder: string, outs: seq<Attempt>)
    ensures WriteImages(w, folder, outs).calls == w.calls + WriteCalls(folder, Select(outs, Requested))
  {
    if outs != [] {
      var n := |outs| - 1;
      WriteImagesCalls(w, folder, outs[..n]);
      var before := Select(outs[..n], Requested);
      if Requested(outs[n]) {
        WriteCallsSnoc(folder, before, n);
      } else {
        assert Select(outs, Requested) == before;
      }
    }
  }

  /** One notice per failed image, in ascending order of position. */
  lemma {:induction false} WriteImagesNotices(w: World, folder: string, outs: seq<Attempt>)
    ensures WriteImages(w, folder, outs).notices == w.notices + ErrorNotices(Select(outs, Failed))
  {
    if outs != [] {
      var n := |outs| - 1;
      WriteImagesNotices(w, folder, outs[..n]);
      var before := Select(outs[..n], Failed);
      if Failed(outs[n]) {
        ErrorNoticesSnoc(before, n);
      } else {
        assert Select(outs, Failed) == before;
      }
    }
  }

  /** A path that is no image path of the first `|outs|` positions is left as it was. */
  lemma {:induction false} WriteImagesElsewhere(w: World, folder: string, outs: seq<Attempt>, path: string)
    requires forall i :: 0 <= i < |outs| ==> path != ImagePath(folder, i)
    ensures Get(WriteImages(w, folder, outs).files, path) == Get(w.files, path)
  {
    if outs != [] {
      WriteImagesElsewhere(w, folder, outs[..|outs| - 1], path);
    }
  }

  /** Image `i` holds its decoded bytes when its attempt succeeded; otherwise its path is left as it was. */
  lemma {:induction false} WriteImagesAt(w: World, folder: string, outs: seq<Attempt>, i: nat)
    requires i < |outs|
    ensures Get(WriteImages(w, folder, outs).files, ImagePath(folder, i)) ==
      if outs[i].Stored? then Some(Binary(outs[i].bytes)) else Get(w.files, ImagePath(folder, i))
  {
    var n := |outs| - 1;
    if i == n {
      forall j | 0 <= j < n ensures ImagePath(folder, i) != ImagePath(folder, j) {
        if ImagePath(folder, i) == ImagePath(folder, j) {
          ImagePathInjective(folder, i, j);
        }
      }
      WriteImagesElsewhere(w, folder, outs[..n], ImagePath(folder, i));
    } else {
      WriteImagesAt(w, folder, outs[..n], i);
      if ImagePath(folder, i) == ImagePath(folder, n) {
        ImagePathInjective(folder, i, n);
      }
    }
  }

  /** Two file maps that agree on every path are equal. */
  lemma GetExtensional(a: map<string, Content>, b: map<string, Content>)
    requires forall path :: Get(a, path) == Get(b, path)
    ensures a == b
  {
    assert forall path :: path in a <==> Get(a, path).Some?;
    assert forall path :: path in b <==> Get(b, path).Some?;
    assert a.Keys == b.Keys;
  }

  /** A refused folder creation ends the run: one notice, and no image or note is written. */
  lemma FolderRefusalWritesNothing(
    w: World, folder: string, baseName: string, content: string,
    images: seq<string>, decode: Decoder, faults: Faults)
    requires !Present(w, folder) && faults.createFolder
    ensures var r := CreateMarkdownFileSpec(w, folder, baseName, content, images, decode, faults);
      && r.files == w.files && r.folders == w.folders
      && r.calls == w.calls + [CreateFolderCall(folder)]
      && r.notices == w.notices + [FolderError]
  {
  }

  /**
   * When the folder is there or could be created: the folder exists afterwards,
   * the requests are the creation (only if it was absent), one write per decoded
   * image in ascending order and the note last; the notices are one per failed
   * image in ascending order, then one if the note was refused.
   */
  lemma MaterialisedRequests(
    w: World, folder: string, baseName: string, content: string,
    images: seq<string>, decode: Decoder, faults: Faults)
    requires Present(w, folder) || !faults.createFolder
    ensures var outs := Outcomes(images, decode, faults);
      var r := CreateMarkdownFileSpec(w, folder, baseName, content, images, decode, faults);
      && r.folders == (if Present(w, folder) then w.folders else w.folders + {folder})
      && Present(r, folder)
      && r.calls == w.calls + (if Present(w, folder) then [] else [CreateFolderCall(folder)])
                    + WriteCalls(folder, Select(outs, Requested))
                    + [CreateCall(MarkdownPath(folder, baseName))]
      && r.notices == w.notices + ErrorNotices(Select(outs, Failed))
                      + (if faults.createMarkdown then [MarkdownError] else [])
      && r.uploads == w.uploads && r.open == w.open
  {
    var outs := Outcomes(images, decode, faults);
    var w1 := WithFolder(w, folder);
    var w2 := WriteImages(w1, folder, outs);
    var note := MarkdownPath(folder, baseName);
    var r := CreateMarkdownFileSpec(w, folder, baseName, content, images, decode, faults);
    assert r == WriteNote(w2, note, content, faults.createMarkdown);
    WriteImagesFrame(w1, folder, outs);
    WriteImagesCalls(w1, folder, outs);
    WriteImagesNotices(w1, folder, outs);
    WriteImagesKeepsPaths(w1, folder, outs);
    assert r.calls == w2.calls + [CreateCall(note)];
    assert r.notices == w2.notices + (if faults.createMarkdown then [MarkdownError] else []);
    assert w1.calls == w.calls + (if Present(w, folder) then [] else [CreateFolderCall(folder)]);
    assert w1.notices == w.notices;
  }

  /** The note holds exactly the body, unless its creation was refused. */
  lemma MaterialisedNote(
    w: World, folder: string, baseName: string, content: string,
    images: seq<string>, decode: Decoder, faults: Faults)
    requires Present(w, folder) || !faults.createFolder
    ensures var note := MarkdownPath(folder, baseName);
      var r := CreateMarkdownFileSpec(w, folder, baseName, content, images, decode, faults);
      Get(r.files, note) == if faults.createMarkdown then Get(w.files, note) else Some(Text(content))
  {
    var outs := Outcomes(images, decode, faults);
    var w1 := WithFolder(w, folder);
    forall i | 0 <= i < |outs| ensures MarkdownPath(folder, baseName) != ImagePath(folder, i) {
      MarkdownPathIsNoImagePath(folder, baseName, i);
    }
    WriteImagesElsewhere(w1, folder, outs, MarkdownPath(folder, baseName));
  }

  /**
   * Image `i` holds the decoded payload of the `i`-th image string when its
   * attempt succeeded; a failed attempt leaves its path as it was.
   */
  lemma MaterialisedImage(
    w: World, folder: string, baseName: string, content: string,
    images: seq<string>, decode: Decoder, faults: Faults, i: nat)
    requires Present(w, folder) || !faults.createFolder
    requires i < |images|
    ensures var path := ImagePath(folder, i);
      var a := AttemptImage(images[i], i, decode, faults);
      var r := CreateMarkdownFileSpec(w, folder, baseName, content, images, decode, faults);
      Get(r.files, path) == if a.Stored? then Some(Binary(a.bytes)) else Get(w.files, path)
  {
    var outs := Outcomes(images, decode, faults);
    var w1 := WithFolder(w, folder);
    var path := ImagePath(folder, i);
    var r := CreateMarkdownFileSpec(w, folder, baseName, content, images, decode, faults);
    assert r == WriteNote(WriteImages(w1, folder, outs), MarkdownPath(folder, baseName), content, faults.createMarkdown);
    WriteImagesAt(w1, folder, outs, i);
    MarkdownPathIsNoImagePath(folder, baseName, i);
    assert Get(r.files, path) == Get(WriteImages(w1, folder, outs).files, path);
    assert Get(w1.files, path) == Get(w.files, path);
  }

  /** Nothing but the note and the image paths changes in the vault's files. */
  lemma MaterialisedNothingElse(
    w: World, folder: string, baseName: string, content: string,
    images: seq<string>, decode: Decoder, faults: Faults, path: string)
    requires path != MarkdownPath(folder, baseName)
    requires forall i :: 0 <= i < |images| ==> path != ImagePath(folder, i)
    ensures Get(CreateMarkdownFileSpec(w, folder, baseName, content, images, decode, faults).files, path)
      == Get(w.files, path)
  {
    var outs := Outcomes(images, decode, faults);
    if Present(w, folder) || !faults.createFolder {
      var w1 := WithFolder(w, folder);
      WriteImagesElsewhere(w1, folder, outs, path);
    }
  }

  /** After one run without refusals, the output folder exists. */
  lemma RunLeavesFolder(
    w: World, folder: string, baseName: string, content: string,
    images: seq<string>, decode: Decoder)
    ensures Present(CreateMarkdownFileSpec(w, folder, baseName, content, images, decode, NoFaults),
                    folder)
  {
    MaterialisedRequests(w, folder, baseName, content, images, decode, NoFaults);
  }

  /**
   * A second run after one without refusals gives every path the content the
   * first run gave it, whatever the host refuses the second time.
   */
  lemma RerunKeepsPath(
    w: World, folder: string, baseName: string, content: string,
    images: seq<string>, decode: Decoder, faults: Faults, path: string)
    ensures var r1 := CreateMarkdownFileSpec(w, folder, baseName, content, images, decode, NoFaults);
      var r2 := CreateMarkdownFileSpec(r1, folder, baseName, content, images, decode, faults);
      Get(r2.files, path) == Get(r1.files, path)
  {
    var r1 := CreateMarkdownFileSpec(w, folder, baseName, content, images, decode, NoFaults);
    RunLeavesFolder(w, folder, baseName, content, images, decode);
    if path == MarkdownPath(folder, baseName) {
      MaterialisedNote(w, folder, baseName, content, images, decode, NoFaults);
      MaterialisedNote(r1, folder, baseName, content, images, decode, faults);
    } else if i :| 0 <= i < |images| && path == ImagePath(folder, i) {
      MaterialisedImage(w, folder, baseName, content, images, decode, NoFaults, i);
      MaterialisedImage(r1, folder, baseName, content, images, decode, faults, i);
    } else {
      MaterialisedNothingElse(r1, folder, baseName, content, images, decode, faults, path);
    }
  }

  /**
   * Running the materialisation again with the same input after a run without
   * refusals leaves folders and files as the first run left them, whether or
   * not the host refuses requests the second time (it refuses re-creating an
   * existing note).
   */
  lemma RerunIsStable(
    w: World, folder: string, baseName: string, content: string,
    images: seq<string>, decode: Decoder, faults: Faults)
    ensures var r1 := CreateMarkdownFileSpec(w, folder, baseName, content, images, decode, NoFaults);
      var r2 := CreateMarkdownFileSpec(r1, folder, baseName, content, images, decode, faults);
      r2.folders == r1.folders && r2.files == r1.files
  {
    var r1 := CreateMarkdownFileSpec(w, folder, baseName, content, images, decode, NoFaults);
    var r2 := CreateMarkdownFileSpec(r1, folder, baseName, content, images, decode, faults);
    RunLeavesFolder(w, folder, baseName, content, images, decode);
    MaterialisedRequests(r1, folder, baseName, content, images, decode, faults);
    forall path ensures Get(r2.files, path) == Get(r1.files, path) {
      RerunKeepsPath(w, folder, baseName, content, images, decode, faults, path);
    }
    GetExtensional(r2.files, r1.files);
  }

  /** The second run requests only the image writes and the note: no folder creation. */
  lemma RerunRequests(
    w: World, folder: string, baseName: string, content: string,
    images: seq<string>, decode: Decoder, faults: Faults)
    ensures var r1 := CreateMarkdownFileSpec(w, folder, baseName, content, images, decode, NoFaults);
      var r2 := CreateMarkdownFileSpec(r1, folder, baseName, content, images, decode, faults);
      r2.calls == r1.calls
        + WriteCalls(folder, Select(Outcomes(images, decode, faults), Requested))
        + [CreateCall(MarkdownPath(folder, baseName))]
  {
    var r1 := CreateMarkdownFileSpec(w, folder, baseName, content, images, decode, NoFaults);
    RunLeavesFolder(w, folder, baseName, content, images, decode);
    MaterialisedRequests(r1, folder, baseName, content, images, decode, faults);
  }

  /** The image requests are writes only: never a folder creation. */
  lemma {:induction false} WriteCallsAreWrites(folder: string, positions: seq<nat>)
    ensures forall c :: c in WriteCalls(folder, positions) ==> c.WriteBinaryCall?
  {
    if positions != [] {
      WriteCallsAreWrites(folder, positions[..|positions| - 1]);
    }
  }

  /** Without a file or without a destination folder: one notice, no upload, nothing written. */
  lemma GuardsStopBeforeUpload(
    w: World, vaultRoot: string, file: Option<string>, folderPath: string,
    response: Option<seq<Page>>, decode: Decoder, faults: Faults)
    requires file.None? || folderPath == ""
    ensures SubmitSpec(w, vaultRoot, file, folderPath, response, decode, faults)
      == w.(notices := w.notices + [if file.None? then MissingPdf else MissingFolder])
  {
  }

  /** A failed conversion request ends the run with one notice; the vault is untouched and the modal stays open. */
  lemma FailedResponseWritesNothing(
    w: World, vaultRoot: string, file: string, folderPath: string, decode: Decoder, faults: Faults)
    requires folderPath != ""
    ensures var r := SubmitSpec(w, vaultRoot, Some(file), folderPath, None, decode, faults);
      && r.folders == w.folders && r.files == w.files && r.calls == w.calls
      && r.notices == w.notices + [ConversionFailed]
      && r.uploads == w.uploads + [file] && r.open == w.open
  {
  }

  /** With a file, a folder and a response, the run is `createMarkdownFile` followed by the success notice. */
  lemma SubmitConverted(
    w: World, vaultRoot: string, file: string, folderPath: string,
    pages: seq<Page>, decode: Decoder, faults: Faults)
    requires folderPath != ""
    ensures var w2 := CreateMarkdownFileSpec(
        w.(uploads := w.uploads + [file]), NoteFolder(vaultRoot, file, folderPath), BaseName(file),
        Body(pages), ImageList(pages), decode, faults);
      SubmitSpec(w, vaultRoot, Some(file), folderPath, Some(pages), decode, faults)
        == w2.(notices := w2.notices + [Converted], open := false)
  {
  }

  /**
   * A refused folder creation is followed by the success notice all the same:
   * the run writes nothing, yet reports `Converted` and closes the modal.
   */
  lemma ConvertedAfterFolderRefusal(
    w: World, vaultRoot: string, file: string, folderPath: string,
    pages: seq<Page>, decode: Decoder, faults: Faults)
    requires folderPath != ""
    requires !Present(w, NoteFolder(vaultRoot, file, folderPath)) && faults.createFolder
    ensures var r := SubmitSpec(w, vaultRoot, Some(file), folderPath, Some(pages), decode, faults);
      && r.files == w.files && r.folders == w.folders
      && r.notices == w.notices + [FolderError] + [Converted]
      && !r.open
  {
    var w1 := w.(uploads := w.uploads + [file]);
    var folder := NoteFolder(vaultRoot, file, folderPath);
    var w2 := CreateMarkdownFileSpec(w1, folder, BaseName(file), Body(pages), ImageList(pages), decode, faults);
    SubmitConverted(w, vaultRoot, file, folderPath, pages, decode, faults);
    FolderRefusalWritesNothing(w1, folder, BaseName(file), Body(pages), ImageList(pages), decode, faults);
    assert w2.notices == w1.notices + [FolderError];
  }

  /**
   * End to end: when the folder is usable and the note is accepted, the note
   * holds the aggregated body of the pages, the `i`-th truthy image of the
   * document lands at `img-i.jpeg` when it decodes and is accepted, and the
   * run ends with the success notice and a closed modal.
   */
  lemma SubmitWritesDocument(
    w: World, vaultRoot: string, file: string, folderPath: string,
    pages: seq<Page>, decode: Decoder, faults: Faults, i: nat)
    requires folderPath != ""
    requires Present(w, NoteFolder(vaultRoot, file, folderPath)) || !faults.createFolder
    requires !faults.createMarkdown
    requires i < |ImageList(pages)|
    ensures var r := SubmitSpec(w, vaultRoot, Some(file), folderPath, Some(pages), decode, faults);
      var a := AttemptImage(ImageList(pages)[i], i, decode, faults);
      && Get(r.files, MarkdownPath(NoteFolder(vaultRoot, file, folderPath), BaseName(file))) == Some(Text(Body(pages)))
      && (a.Stored? ==> Get(r.files, ImagePath(NoteFolder(vaultRoot, file, folderPath), i)) == Some(Binary(a.bytes)))
      && r.notices[|r.notices| - 1] == Converted && !r.open
  {
    var w1 := w.(uploads := w.uploads + [file]);
    var folder := NoteFolder(vaultRoot, file, folderPath);
    SubmitConverted(w, vaultRoot, file, folderPath, pages, decode, faults);
    MaterialisedNote(w1, folder, BaseName(file), Body(pages), ImageList(pages), decode, faults);
    MaterialisedImage(w1, folder, BaseName(file), Body(pages), ImageList(pages), decode, faults, i);
  }

  /** The conversion modal: its notices, what it submitted for conversion, and whether it is open. */
  class ConversionModal {
    const vault: Vault
    var notices: seq<Notice>
    /** The names of the files submitted for conversion (the upload was attempted), in order. */
    ghost var uploads: seq<string>
    var open: bool

    constructor (vault: Vault)
      ensures this.vault == vault && notices == [] && uploads == [] && open
    {
      this.vault := vault;
      notices := [];
      uploads := [];
      open := true;
    }

    ghost function Snapshot(): World
      reads this, vault
    {
      World(vault.folders, vault.files, vault.calls, notices, uploads, open)
    }

    /**
     * `createMarkdownFile`: derive the folder, create it if absent (a refusal
     * ends the method), write the images in ascending order (a failure is
     * noticed and skipped), then create the note (a refusal is noticed).
     */
    method CreateMarkdownFile(
      content: string, fileName: string, folderPath: string,
      images: seq<string>, decode: Decoder, faults: Faults)
      modifies this, vault
      ensures Snapshot() == CreateMarkdownFileSpec(
        old(Snapshot()), NoteFolder(vault.basePath, fileName, folderPath), BaseName(fileName),
        content, images, decode, faults)
    {
      ghost var start := Snapshot();
      var newFolderPath := NoteFolder(vault.basePath, fileName, folderPath);
      var ready := EnsureFolder(newFolderPath, faults.createFolder);
      if !ready {
        return;
      }
      ghost var prepared := Snapshot();
      assert prepared == WithFolder(start, newFolderPath);
      var fullPath := MarkdownPath(newFolderPath, BaseName(fileName));
      WriteAllImages(newFolderPath, images, decode, faults);
      ghost var written := Snapshot();
      assert written == WriteImages(prepared, newFolderPath, Outcomes(images, decode, faults));
      CreateNote(fullPath, content, faults.createMarkdown);
    }

    /** The note itself: a refusal is noticed and not rethrown. */
    method CreateNote(path: string, content: string, fail: bool)
      modifies this, vault
      ensures Snapshot() == WriteNote(old(Snapshot()), path, content, fail)
    {
      var noted := vault.Create(path, content, fail);
      if !noted {
        notices := notices + [MarkdownError];
      }
    }

    /** The folder step: create the folder only if absent; a refusal is noticed and reported as `false`. */
    method EnsureFolder(folder: string, fail: bool) returns (ready: bool)
      modifies this, vault
      ensures ready == (Present(old(Snapshot()), folder) || !fail)
      ensures ready ==> Snapshot() == WithFolder(old(Snapshot()), folder)
      ensures !ready ==> Snapshot() == old(Snapshot()).(
        calls := old(Snapshot()).calls + [CreateFolderCall(folder)],
        notices := old(Snapshot()).notices + [FolderError])
    {
      var present := vault.Exists(folder);
      ready := true;
      if !present {
        var created := vault.CreateFolder(folder, fail);
        if !created {
          notices := notices + [FolderError];
          ready := false;
        }
      }
    }

    /** The image loop of `createMarkdownFile`: every position in ascending order. */
    method WriteAllImages(folder: string, images: seq<string>, decode: Decoder, faults: Faults)
      modifies this, vault
      ensures Snapshot() == WriteImages(old(Snapshot()), folder, Outcomes(images, decode, faults))
    {
      ghost var start := Snapshot();
      ghost var outs := Outcomes(images, decode, faults);
      var i := 0;
      while i < |images|
        invariant i <= |images|
        invariant Snapshot() == WriteImages(start, folder, outs[..i])
      {
        WriteImagesStep(start, folder, outs, i);
        assert outs[i] == AttemptImage(images[i], i, decode, faults);
        WriteImage(folder, images[i], i, decode, faults);
        i := i + 1;
      }
      assert outs[..i] == outs;
    }

    /** One image: take the payload, decode it, write it; any failure becomes a notice. */
    method WriteImage(folder: string, image: string, i: nat, decode: Decoder, faults: Faults)
      modifies this, vault
      ensures Snapshot() == ImageStep(old(Snapshot()), folder, AttemptImage(image, i, decode, faults), i)
    {
      var imagePath := ImagePath(folder, i);
      var base64Data := PayloadOf(image);
      var imageBuffer := if base64Data.Some? then decode(base64Data.value) else None;
      if imageBuffer.None? {
        notices := notices + [ImageError(i)];
      } else {
        var written := vault.WriteBinary(imagePath, imageBuffer.value, i in faults.writeImage);
        if !written {
          notices := notices + [ImageError(i)];
        }
      }
    }

    /**
     * The submit handler: a file and a destination folder are required; the
     * file is submitted for conversion; the response's pages are aggregated and
     * materialised, then the success notice is shown and the modal closes.
     * `response` is what the conversion request returned, `None` when it threw.
     */
    method Submit(
      file: Option<string>, folderPath: string, response: Option<seq<Page>>,
      decode: Decoder, faults: Faults)
      modifies this, vault
      ensures Snapshot() == SubmitSpec(
        old(Snapshot()), vault.basePath, file, folderPath, response, decode, faults)
    {
      if file.None? {
        notices := notices + [MissingPdf];
        return;
      }
      if folderPath == "" {
        notices := notices + [MissingFolder];
        return;
      }
      uploads := uploads + [file.value];
      match response
      case None =>
        notices := notices + [ConversionFailed];
      case Some(pages) =>
        var pageContent, images := Aggregate(pages);
        CreateMarkdownFile(pageContent, file.value, folderPath, images, decode, faults);
        notices := notices + [Converted];
        open := false;
    }
  }
}
