/** The decision logic of the `/upload` and `/result` routes (app.py). Flask,
    the filesystem, SQLite and OpenCV are outside the model: `secure_filename`,
    the clock's timestamp and the sketch generator's verdict arrive as
    parameters, and the reply records which effects the route would perform. */
module Server {
  import opened Common
  import opened Filenames

  /** The flashed messages, all in the 'error' category. */
  datatype Flash = NoFileSelected | InvalidFileType | ProcessingFailed | InvalidRequest
  {
    function Message(): string
    {
      match this
      case NoFileSelected => "No file selected"
      case InvalidFileType => "Invalid file type. Allowed types: PNG, JPG, JPEG, BMP, TIFF, WEBP"
      case ProcessingFailed => "Error processing image. Please try another image."
      case InvalidRequest => "Invalid request"
    }
  }

  /** Where a redirect points: back to the upload form, or to the result page
      with its two query arguments. */
  datatype Location = UploadForm | ResultPage(original: string, sketch: string)

  datatype Response = Render(template: string) | Redirect(to: Location)

  datatype HttpMethod = Get | Post

  /** What the route does: the flashed message, the response, the path the
      upload is written to, whether the sketch generator is invoked, and the
      conversion row stored in the database (stored name, sketch name, upload
      path, output path). */
  datatype Record = Record(original: string, sketch: string, uploadPath: string, outputPath: string)

  datatype UploadReply = UploadReply(
    flash: Option<Flash>,
    response: Response,
    savedTo: Option<string>,
    processed: bool,
    recorded: Option<Record>)

  const UploadFolder: string := "static/uploads"
  const OutputFolder: string := "static/outputs"

  /** `posixpath.join` of two components: an absolute second part replaces
      the first, and a '/' is inserted only when the first does not end in one. */
  function PathJoin(a: string, b: string): (r: string)
    ensures |b| > 0 && b[0] == '/' ==> r == b
    // Otherwise `a` leads, `b` ends the path, at most one '/' is inserted,
    // and a non-empty `a` is always followed by a '/'.
    ensures !(|b| > 0 && b[0] == '/') ==>
      && a <= r && |a| + |b| <= |r| <= |a| + 1 + |b| && r[|r| - |b|..] == b
      && (a != "" ==> r[|r| - |b| - 1] == '/')
  {
    if |b| > 0 && b[0] == '/' then b
    else if a == "" || a[|a| - 1] == '/' then a + b
    else a + "/" + b
  }

  /** A reply that only flashes `f` and sends the browser back to the form. */
  function Refuse(f: Flash): UploadReply
  {
    UploadReply(Some(f), Redirect(UploadForm), None, false, None)
  }

  /** The `/upload` route. `part` is the multipart field named 'file' with its
      client-supplied filename, or None when the request has no such field;
      `secure` stands for `secure_filename`, `timestamp` for
      `datetime.now().strftime('%Y%m%d_%H%M%S')`, and `sketchOk` for the
      verdict of `generate_pencil_sketch`. */
  function Upload(
    verb: HttpMethod, part: Option<string>,
    secure: string -> string, timestamp: string, sketchOk: bool): (r: UploadReply)
    // A GET only shows the form.
    ensures verb.Get? ==> r == UploadReply(None, Render("upload.html"), None, false, None)
    // The empty-submission checks come first, before any extension check.
    ensures verb.Post? && (part == None || part == Some("")) ==> r == Refuse(NoFileSelected)
    // A refused extension is flashed and nothing is saved or processed.
    ensures verb.Post? && part.Some? && part.value != "" && !AllowedFile(part.value)
      ==> r == Refuse(InvalidFileType)
    // Nothing is written unless the submitted name passed the extension rule.
    ensures r.savedTo.Some? ==> verb.Post? && part.Some? && AllowedFile(part.value)
    ensures r.processed <==> r.savedTo.Some?
    // The upload is written under the upload folder, with the unique name.
    ensures r.savedTo.Some? ==>
      && part.Some?
      && r.savedTo.value == PathJoin(UploadFolder, UniqueFilename(secure(part.value), timestamp))
    // Success is exactly: a POST, a named file, an allowed extension and a
    // successful sketch; the redirect then names the stored upload and the sketch.
    ensures r.response.Redirect? && r.response.to.ResultPage?
      <==> verb.Post? && part.Some? && part.value != "" && AllowedFile(part.value) && sketchOk
    ensures r.response.Redirect? && r.response.to.ResultPage? ==>
      && r.flash == None
      && r.response.to.original == UniqueFilename(secure(part.value), timestamp)
      && r.response.to.sketch == SketchFilename(secure(part.value), timestamp)
      && r.recorded.Some?
      && r.recorded.value.original == secure(part.value)
      && r.recorded.value.sketch == r.response.to.sketch
      && r.savedTo.Some? && r.recorded.value.uploadPath == r.savedTo.value
      && r.recorded.value.outputPath == PathJoin(OutputFolder, r.response.to.sketch)
    // A failed sketch is flashed, sends the browser back, and stores no row,
    // although the upload itself has already been written.
    ensures verb.Post? && part.Some? && part.value != "" && AllowedFile(part.value) && !sketchOk
      ==> r.flash == Some(ProcessingFailed) && r.response == Redirect(UploadForm)
          && r.savedTo.Some? && r.recorded == None
  {
    if verb.Get? then
      UploadReply(None, Render("upload.html"), None, false, None)
    else if part.None? then
      Refuse(NoFileSelected)
    else if part.value == "" then
      Refuse(NoFileSelected)
    else if AllowedFile(part.value) then
      var original := secure(part.value);
      var unique := UniqueFilename(original, timestamp);
      var sketch := SketchFilename(original, timestamp);
      var uploadPath := PathJoin(UploadFolder, unique);
      var outputPath := PathJoin(OutputFolder, sketch);
      if sketchOk then
        UploadReply(None, Redirect(ResultPage(unique, sketch)), Some(uploadPath), true,
                    Some(Record(original, sketch, uploadPath, outputPath)))
      else
        UploadReply(Some(ProcessingFailed), Redirect(UploadForm), Some(uploadPath), true, None)
    else
      Refuse(InvalidFileType)
  }

  /** Where the files land: a secured name that does not start with '/' is
      stored directly under the upload folder, and the sketch, whose name
      always starts with "sketch_", directly under the output folder. */
  lemma StoredInFolders(secured: string, timestamp: string)
    requires secured == "" || secured[0] != '/'
    ensures PathJoin(UploadFolder, UniqueFilename(secured, timestamp))
         == UploadFolder + "/" + UniqueFilename(secured, timestamp)
    ensures PathJoin(OutputFolder, SketchFilename(secured, timestamp))
         == OutputFolder + "/" + SketchFilename(secured, timestamp)
  {
  }

  /** Python truthiness of an optional query argument: present and non-empty. */
  predicate Truthy(arg: Option<string>)
  {
    arg.Some? && arg.value != ""
  }

  /** The `/result` route: both query arguments must be present and non-empty,
      otherwise 'Invalid request' is flashed and the browser is sent to the form. */
  function Result(original: Option<string>, sketch: Option<string>): (r: (Option<Flash>, Response))
    ensures r.1.Render? <==> original.Some? && original.value != "" && sketch.Some? && sketch.value != ""
    ensures r.1.Render? ==> r.0 == None && r.1.template == "result.html"
    ensures !r.1.Render? ==> r == (Some(InvalidRequest), Redirect(UploadForm))
  {
    if !Truthy(original) || !Truthy(sketch) then
      (Some(InvalidRequest), Redirect(UploadForm))
    else
      (None, Render("result.html"))
  }

  /** The redirect of a successful upload always satisfies `/result`: both
      generated names are non-empty, and the sketch name has the sketch shape. */
  lemma SuccessfulUploadReachesResult(
    part: string, secure: string -> string, timestamp: string)
    requires part != "" && AllowedFile(part)
    ensures var r := Upload(Post, Some(part), secure, timestamp, true);
      r.response.Redirect? && r.response.to.ResultPage? &&
      Result(Some(r.response.to.original), Some(r.response.to.sketch)).1 == Render("result.html")
  {
  }
}
