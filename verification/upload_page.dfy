/** The upload form's client-side behaviour (static/js/main.js): file
    selection by picker or drop, type and size validation, the asynchronous
    preview, removal, and the submit guard. The DOM is a record and every
    handler is a transition on it. Reads started with `FileReader` are kept in
    `pending` and complete in any order as separate events; their completion
    is applied without any check that the file is still the selected one. */
module UploadPage {
  import opened Common

  /** A `File` as the handlers see it. `dataUrl` is what `readAsDataURL`
      produces for it, taken as given. */
  datatype File = File(name: string, mime: string, size: nat, dataUrl: string)

  /** The parts of the page the handlers read and write. */
  datatype Page = Page(
    input: seq<File>,        // fileInput.files
    placeholderShown: bool,  // uploadPlaceholder display 'block' / 'none'
    previewShown: bool,      // uploadPreview display 'block' / 'none'
    imageSrc: string,        // previewImage.src
    nameText: string,        // fileName.textContent
    overlayShown: bool,      // loadingOverlay display 'flex'
    dragOver: bool,          // 'dragover' class on the drop area
    pending: seq<File>)      // reads started and not yet completed

  /** The blocking `alert` messages. */
  datatype Alert = InvalidType | TooLarge | NoFileSelected
  {
    function Message(): string
    {
      match this
      case InvalidType => "Invalid file type. Please select an image file (PNG, JPG, JPEG, BMP, TIFF, WebP)"
      case TooLarge => "File is too large. Maximum size is 16MB."
      case NoFileSelected => "Please select an image file"
    }
  }

  /** The page after a handler, the alert it raised, and for a submit whether
      the browser goes on to send the form. */
  datatype Step = Step(page: Page, alert: Option<Alert>, submits: bool)

  /** The user-level events the handlers react to. */
  datatype Event =
    | Pick(files: seq<File>)   // the picker replaces the selection, then 'change' fires
    | DragOver
    | DragLeave
    | Drop(files: seq<File>)
    | RemoveClick
    | Submit
    | ReadComplete(i: nat)     // the i-th outstanding read finishes

  const ValidTypes: seq<string> :=
    ["image/png", "image/jpeg", "image/jpg", "image/bmp", "image/tiff", "image/webp"]

  /** 16 MiB; a file of exactly this size is accepted. */
  const MaxSize: nat := 16 * 1024 * 1024

  /** The page as served: nothing selected, the placeholder showing. */
  const Initial: Page := Page([], true, false, "", "", false, false, [])

  /** The empty upload state that `resetFileUpload` establishes. */
  predicate IsEmpty(p: Page)
  {
    p.input == [] && p.placeholderShown && !p.previewShown && p.imageSrc == "" && p.nameText == ""
  }

  /** A file that passes both client-side checks. */
  predicate Acceptable(f: File)
  {
    f.mime in ValidTypes && f.size <= MaxSize
  }

  /** `resetFileUpload`: clears the input, shows the placeholder, hides the
      preview and blanks the image and the name. */
  function Reset(p: Page): (r: Page)
    ensures IsEmpty(r)
    // Everything else on the page, and reads still in flight, are untouched.
    ensures r.overlayShown == p.overlayShown && r.dragOver == p.dragOver && r.pending == p.pending
  {
    p.(input := [], placeholderShown := true, previewShown := false, imageSrc := "", nameText := "")
  }

  /** `handleFileSelect`: nothing without a file; otherwise the type is checked
      before the size, and a file that passes both starts a preview read. */
  function HandleFileSelect(p: Page, file: Option<File>): (r: Step)
    ensures !r.submits
    ensures file.None? ==> r == Step(p, None, false)
    ensures file.Some? && file.value.mime !in ValidTypes ==> r.alert == Some(InvalidType)
    ensures file.Some? && file.value.mime in ValidTypes && file.value.size > MaxSize
      ==> r.alert == Some(TooLarge)
    // Any alert leaves the empty state behind; no alert means the page is
    // untouched apart from one more read in flight.
    ensures r.alert.Some? ==> r.page == Reset(p)
    ensures file.Some? ==> (r.alert == None <==> Acceptable(file.value))
    ensures r.alert == None && file.Some? ==> r.page == p.(pending := p.pending + [file.value])
  {
    match file
    case None => Step(p, None, false)
    case Some(f) =>
      if f.mime !in ValidTypes then Step(Reset(p), Some(InvalidType), false)
      else if f.size > MaxSize then Step(Reset(p), Some(TooLarge), false)
      else Step(p.(pending := p.pending + [f]), None, false)
  }

  /** `files[0]`, or undefined for an empty list. */
  function First(files: seq<File>): (r: Option<File>)
    ensures r.Some? <==> |files| > 0
    ensures r.Some? ==> r.value == files[0]
  {
    if |files| == 0 then None else Some(files[0])
  }

  /** The 'change' listener: `handleFileSelect(this.files[0])`. An empty
      list changes nothing; otherwise the first file alone decides whether an
      alert is raised. */
  function OnChange(p: Page): (r: Step)
    ensures |p.input| == 0 ==> r == Step(p, None, false)
    ensures |p.input| > 0 ==> (r.alert == None <==> Acceptable(p.input[0]))
    ensures r.alert.Some? ==> r.page == Reset(p)
  {
    HandleFileSelect(p, First(p.input))
  }

  /** The 'drop' listener: with at least one file, the input takes the dropped
      list and the first file is handled; otherwise only the highlight goes. */
  function OnDrop(p: Page, files: seq<File>): (r: Step)
    ensures |files| == 0 ==> r == Step(p.(dragOver := false), None, false)
    ensures |files| > 0 ==>
      r == HandleFileSelect(p.(dragOver := false, input := files), Some(files[0]))
  {
    var q := p.(dragOver := false);
    if |files| > 0 then HandleFileSelect(q.(input := files), Some(files[0]))
    else Step(q, None, false)
  }

  /** The 'submit' listener. The form is sent only with a file selected, and
      then the loading overlay is shown. */
  function OnSubmit(p: Page): (r: Step)
    ensures r.submits <==> |p.input| > 0
    ensures !r.submits ==> r == Step(p, Some(NoFileSelected), false)
    ensures r.submits ==> r.alert == None && r.page == p.(overlayShown := true)
  {
    if |p.input| == 0 then Step(p, Some(NoFileSelected), false)
    else Step(p.(overlayShown := true), None, true)
  }

  /** `reader.onload` for the i-th outstanding read: the image takes that
      file's data URL, the name text its name, and the preview replaces the
      placeholder, whatever has happened to the selection since. */
  function OnReadComplete(p: Page, i: nat): (r: Page)
    ensures i >= |p.pending| ==> r == p
    ensures i < |p.pending| ==>
      && r.imageSrc == p.pending[i].dataUrl
      && r.nameText == p.pending[i].name
      && !r.placeholderShown && r.previewShown
      && r.input == p.input && r.overlayShown == p.overlayShown
      && r.dragOver == p.dragOver
      && r.pending == p.pending[..i] + p.pending[i + 1..]
  {
    if i < |p.pending| then
      var f := p.pending[i];
      p.(imageSrc := f.dataUrl, nameText := f.name, placeholderShown := false,
         previewShown := true, pending := p.pending[..i] + p.pending[i + 1..])
    else p
  }

  /** Dispatches one event to its listener. Only a submit can send the form
      or show the loading overlay, and only a file choice or a submit can raise
      an alert. */
  function Apply(p: Page, e: Event): (r: Step)
    ensures r.submits ==> e.Submit? && |p.input| > 0
    ensures e.Submit? ==> (r.submits <==> |p.input| > 0)
    ensures !e.Submit? ==> r.page.overlayShown == p.overlayShown
    ensures r.alert.Some? ==> e.Pick? || e.Drop? || e.Submit?
  {
    match e
    case Pick(files) => OnChange(p.(input := files))
    case DragOver => Step(p.(dragOver := true), None, false)
    case DragLeave => Step(p.(dragOver := false), None, false)
    case Drop(files) => OnDrop(p, files)
    case RemoveClick => Step(Reset(p), None, false)
    case Submit => OnSubmit(p)
    case ReadComplete(i) => Step(OnReadComplete(p, i), None, false)
  }

  /** The page after a sequence of events. */
  function Run(p: Page, events: seq<Event>): Page
    decreases |events|
  {
    if |events| == 0 then p else Run(Apply(p, events[0]).page, events[1..])
  }

  /** What the handlers keep true of the page: exactly one of placeholder and
      preview shows, and while the placeholder shows the image and the name
      are blank. */
  predicate Coherent(p: Page)
  {
    && p.placeholderShown == !p.previewShown
    && (p.placeholderShown ==> p.imageSrc == "" && p.nameText == "")
  }

  /** Every handler preserves `Coherent`. */
  lemma ApplyPreservesCoherent(p: Page, e: Event)
    requires Coherent(p)
    ensures Coherent(Apply(p, e).page)
  {
  }

  /** From the page as served, any sequence of events leaves it coherent. */
  lemma {:induction false} RunPreservesCoherent(p: Page, events: seq<Event>)
    requires Coherent(p)
    ensures Coherent(Run(p, events))
    decreases |events|
  {
    if |events| > 0 {
      ApplyPreservesCoherent(p, events[0]);
      RunPreservesCoherent(Apply(p, events[0]).page, events[1..]);
    }
  }

  /** A 'change' with no file, or a drop of no files, changes nothing but the
      drag highlight. */
  lemma AbsentFileChangesNothing(p: Page)
    ensures OnChange(p.(input := [])) == Step(p.(input := []), None, false)
    ensures OnDrop(p, []).page == p.(dragOver := false)
    ensures OnDrop(p, []).alert == None
  {
  }

  /** A wrong type is reported as such even when the file is also too large,
      and leaves the empty state. */
  lemma TypeCheckedBeforeSize(p: Page, f: File)
    requires f.mime !in ValidTypes && f.size > MaxSize
    ensures HandleFileSelect(p, Some(f)) == Step(Reset(p), Some(InvalidType), false)
    ensures IsEmpty(HandleFileSelect(p, Some(f)).page)
  {
  }

  /** The size limit is inclusive: 16 MiB passes, one byte more does not. */
  lemma SizeLimitBoundary(p: Page, f: File)
    requires f.mime in ValidTypes
    ensures f.size == MaxSize ==> HandleFileSelect(p, Some(f)).alert == None
    ensures f.size == MaxSize + 1 ==>
      HandleFileSelect(p, Some(f)) == Step(Reset(p), Some(TooLarge), false)
  {
  }

  /** From any page, a valid file that is picked shows its preview once its
      own read completes, with the name exactly as given; the reads that were
      already in flight stay in flight. */
  lemma PreviewAfterRead(p: Page, f: File)
    requires Acceptable(f)
    ensures var q := Run(p, [Pick([f]), ReadComplete(|p.pending|)]);
      && !q.placeholderShown && q.previewShown && q.nameText == f.name
      && q.imageSrc == f.dataUrl && q.input == [f] && q.pending == p.pending
      && q.overlayShown == p.overlayShown && q.dragOver == p.dragOver
  {
    var p1 := Apply(p, Pick([f])).page;
    assert p1 == p.(input := [f], pending := p.pending + [f]);
    var k := |p.pending|;
    var q := OnReadComplete(p1, k);
    assert p1.pending[k] == f && p1.pending[..k] == p.pending && p1.pending[k + 1..] == [];
    assert Run(p, [Pick([f]), ReadComplete(k)]) == Run(p1, [ReadComplete(k)]);
    assert Run(p1, [ReadComplete(k)]) == Run(q, []);
  }

  /** A read that completes after the file was removed still applies: the
      input is empty, yet the preview shows the removed file. */
  lemma StaleReadAfterRemove(f: File)
    requires Acceptable(f)
    ensures var p := Run(Initial, [Pick([f]), RemoveClick, ReadComplete(0)]);
      p.input == [] && p.previewShown && p.nameText == f.name && p.imageSrc == f.dataUrl
  {
    var p1 := Apply(Initial, Pick([f])).page;
    assert p1 == Initial.(input := [f], pending := [f]);
    var p2 := Apply(p1, RemoveClick).page;
    assert p2 == Initial.(pending := [f]);
    assert Run(Initial, [Pick([f]), RemoveClick, ReadComplete(0)])
        == Run(p2, [ReadComplete(0)]);
  }

  /** With two valid files picked in a row, the reads may finish out of order:
      the earlier file's read finishing last leaves its preview showing while
      the input holds the later file. */
  lemma StaleReadAfterReselect(f: File, g: File)
    requires Acceptable(f) && Acceptable(g)
    ensures var p := Run(Initial, [Pick([f]), Pick([g]), ReadComplete(1), ReadComplete(0)]);
      p.input == [g] && p.previewShown && p.nameText == f.name && p.imageSrc == f.dataUrl
  {
    var p1 := Apply(Initial, Pick([f])).page;
    assert p1 == Initial.(input := [f], pending := [f]);
    var p2 := Apply(p1, Pick([g])).page;
    assert p2 == Initial.(input := [g], pending := [f, g]);
    var p3 := Apply(p2, ReadComplete(1)).page;
    assert [f, g][..1] + [f, g][2..] == [f];
    assert p3.pending == [f] && p3.input == [g];
    var es := [Pick([f]), Pick([g]), ReadComplete(1), ReadComplete(0)];
    assert Run(Initial, es) == Run(p1, es[1..]);
    assert es[1..][1..] == es[2..] && es[2..][1..] == es[3..];
    assert Run(p1, es[1..]) == Run(p2, es[2..]);
    assert Run(p2, es[2..]) == Run(p3, es[3..]);
  }

  /** Reset reaches the empty state from anywhere, and doing it twice is the
      same as doing it once. */
  lemma ResetIdempotent(p: Page)
    ensures Reset(Reset(p)) == Reset(p)
    ensures IsEmpty(p) ==> Reset(p) == p
  {
  }

  /** With nothing selected, however many times the form is submitted, the
      page, the overlay included, stays as it was. */
  lemma {:induction false} SubmitWithoutFile(p: Page, n: nat)
    requires |p.input| == 0
    ensures Run(p, seq(n, _ => Submit)) == p
  {
    if n > 0 {
      var submits := seq(n, _ => Submit);
      assert submits[1..] == seq(n - 1, _ => Submit);
      assert Apply(p, Submit).page == p;
      SubmitWithoutFile(p, n - 1);
    }
  }
}
