# SketchAI upload rules, modelled in Dafny

SketchAI is a Flask web application that turns an uploaded photo into a pencil
sketch. This project models the decision logic on both sides of its upload
form, and proves properties of that model:

- **the upload page's script** (`static/js/main.js`): choosing a file with the
  picker or by drag and drop, the MIME-type and 16 MiB checks, the asynchronous
  preview, the remove button, the submit guard, the rolling key buffer of the
  Konami easter egg and the clamped fake progress bar;
- **the server** (`app.py`): `allowed_file`, the order of decisions in the
  `/upload` POST handler, the names derived with `os.path.splitext` for the
  stored upload and the sketch, and the argument check of `/result`.

Everything is pure: immutable datatypes, and transition and decision
functions over strings, integers, exact reals and sequences.

| file | module | what it holds |
|---|---|---|
| `common.dfy` | `Common` | `Option`, `Min` |
| `text.dfy` | `Text` | ASCII `lower()`, `rfind`, facts about `rfind` on concatenations |
| `upload_page.dfy` | `UploadPage` | the page as a record, every handler as a transition, the coherence invariant, the stale-read behaviour |
| `konami.dfy` | `Konami` | the ten-key rolling buffer and its `join(',')` comparison |
| `progress.dfy` | `Progress` | the fake progress clamp |
| `filenames.dfy` | `Filenames` | `allowed_file`, POSIX `splitext`, the derived file names |
| `server.dfy` | `Server` | the `/upload` and `/result` routes as decision functions |

How the browser side is modelled. The DOM is the record `UploadPage.Page`:
the input's file list, whether the placeholder and the preview show, the
preview's `src`, the file-name text, whether the loading overlay shows, the
drop area's highlight, and the `FileReader` reads still in flight. Every
listener is a function from a page to a `Step` (new page, alert raised, whether
the form is sent). A read's completion is its own event, `ReadComplete(i)`,
which may come in any order and after any other event. As in the script, it
is applied without checking that its file is still the selected one, and two
lemmas exhibit the consequence: after a removal, or after a newer file was
chosen, the preview can show a file that is no longer selected.

Two details of the script that the model follows:

- The progress interval is started when the page loads, whenever the overlay
  exists and contains a `.progress-bar` element. It does not wait for the
  overlay to be shown.
- The progress step is `Math.random() * 15`. The model allows any
  non-negative step, so every property about the bar holds for the real step.

## Model

| member | source | states |
|---|---|---|
| `UploadPage.HandleFileSelect` | static/js/main.js:101-131 | with no file nothing changes; a MIME type outside the six accepted ones raises the type alert, whatever the size; an accepted type over 16777216 bytes raises the size alert; any alert leaves the empty state; no alert happens exactly for acceptable files, which only start a preview read |
| `UploadPage.Reset` | static/js/main.js:137-151 | from any page: empty input, placeholder shown, preview hidden, blank image and name; the overlay, the highlight and reads in flight are untouched |
| `UploadPage.ResetIdempotent` | static/js/main.js:137-151 | resetting twice equals resetting once, and an already empty page is a fixed point |
| `UploadPage.First` | static/js/main.js:44 | `files[0]` is defined exactly for a non-empty list and is its first file |
| `UploadPage.OnChange` | static/js/main.js:43-45 | an empty file list changes nothing; otherwise the first file alone decides whether an alert is raised, and any alert leaves the empty state |
| `UploadPage.OnDrop` | static/js/main.js:60-70 | a drop always removes the highlight; with no files it does nothing else, otherwise the input takes the dropped list and the first file goes through the file handler |
| `UploadPage.OnSubmit` | static/js/main.js:82-93 | the form is sent exactly when a file is selected; otherwise the "Please select an image file" alert is raised and the page is unchanged; when sent, the overlay is shown |
| `UploadPage.SubmitWithoutFile` | static/js/main.js:82-87 | with nothing selected, any number of submits leaves the page exactly as it was, the overlay hidden or shown as before |
| `UploadPage.OnReadComplete` | static/js/main.js:121-130 | a completing read puts its own file's data URL and name on the page and swaps placeholder for preview, leaving the selection, the overlay and the highlight as they are; an unknown read changes nothing |
| `UploadPage.Apply` | static/js/main.js:43-93 | only a submit with a file selected sends the form; only a submit can show the overlay; only choosing a file, dropping one or submitting raises an alert |
| `UploadPage.AbsentFileChangesNothing` | static/js/main.js:43-70 | a change event with no file, or a drop of no files, leaves the upload state unchanged and raises no alert |
| `UploadPage.TypeCheckedBeforeSize` | static/js/main.js:104-118 | a wrong-type file that is also too large reports only the type error and leaves the empty state |
| `UploadPage.SizeLimitBoundary` | static/js/main.js:112-118 | exactly 16777216 bytes is accepted, and one byte more gives the size alert and the empty state |
| `UploadPage.PreviewAfterRead` | static/js/main.js:120-130 | from any page, after a valid file is picked and its own read completes, the preview shows, the placeholder is hidden, the image and name text are the file's own, the input holds just that file, and the reads already in flight, the overlay and the highlight are as before |
| `UploadPage.StaleReadAfterRemove` | static/js/main.js:121-130 | a read completing after the remove button still applies: the input is empty while the preview shows the removed file |
| `UploadPage.StaleReadAfterReselect` | static/js/main.js:121-130 | with two files picked in a row, the older read finishing last shows the older file while the input holds the newer one |
| `UploadPage.RunPreservesCoherent` | static/js/main.js:36-151 | along any sequence of events, exactly one of placeholder and preview shows, and while the placeholder shows the image and name are blank |
| `Konami.LastN` | static/js/main.js:293 | `slice(-n)` keeps the last min(length, n) elements for n > 0, and the whole array for n = 0, since -0 is read as index 0 |
| `Konami.Push` | static/js/main.js:292-293 | after a key press the buffer holds between 1 and 10 keys, ends with the new key, and drops the oldest key only when ten were already held |
| `Konami.Join` | static/js/main.js:295 | the joined text starts with the first key, and for comma-free keys it contains a comma exactly when there are two keys or more |
| `Konami.KeyDown` | static/js/main.js:291-302 | the buffer after a key press is the push followed by `slice(-10)`; for keys a browser reports, the effect fires exactly when that buffer equals the pattern |
| `Konami.FeedIsSuffix` | static/js/main.js:288-293 | after any key sequence the buffer is exactly the last min(n, 10) keys in order |
| `Konami.JoinInjective` | static/js/main.js:295 | when the keys are the comma key or comma-free and the other side is non-empty comma-free strings, equal `join(',')` results mean equal sequences |
| `Konami.MatchIffPattern` | static/js/main.js:289-295 | for such keys, the joined comparison holds exactly when the buffer is the pattern |
| `Konami.FiresIffLastTenArePattern` | static/js/main.js:291-301 | for keys a browser reports, the effect fires on a key press exactly when the last ten keys equal the pattern in order, so fewer than ten presses never fire it |
| `Konami.CommaBearingKeyFiresEarly` | static/js/main.js:295 | without the restriction on keys, one key whose text is the joined pattern fires the effect on the first press |
| `Progress.Tick` | static/js/main.js:260-261 | from a value at most 90, a tick never decreases it and never passes 90; the result is the sum or, when the sum exceeds 90, exactly 90 |
| `Progress.Run` | static/js/main.js:258-263 | from any start in [0, 90], every width written stays between the start and 90 and the widths never decrease, whatever the non-negative steps |
| `Progress.RunSteps` | static/js/main.js:259-262 | each width of a run is one tick applied to the width before it |
| `Text.Lower` | app.py:50 | ASCII lower-casing: keeps the length, changes only ASCII capitals, and leaves no ASCII capital behind |
| `Text.LowerIdempotent` | app.py:50 | lower-casing an already lower-cased name changes nothing |
| `Text.RFind` | app.py:50 | the last index holding the character, with no occurrence after it, or -1 |
| `Text.RFindConcat` | app.py:50 | the last occurrence in `a + b` lies in `b` when `b` has one, and otherwise where it lies in `a` |
| `Filenames.AllowedFile` | app.py:47-50 | false for any name without a dot; otherwise true exactly when the text after the last dot, lower-cased, is one of png, jpg, jpeg, bmp, tiff, webp |
| `Filenames.ExtensionRule` | app.py:47-50 | for every stem and dot-free extension, acceptance depends on the lower-cased extension alone |
| `Filenames.AcceptsUpperCaseExtension` | app.py:50 | "a.PNG" is accepted |
| `Filenames.RejectsAppendedExtension` | app.py:50 | "a.png.exe" is refused |
| `Filenames.RejectsEmptyExtension` | app.py:49-50 | "a." is refused |
| `Filenames.Splitext` | app.py:168 | stem plus extension gives back the name, for every path |
| `Filenames.SplitextParts` | app.py:168 | a non-empty extension is one dot followed by neither dots nor slashes, and the stem's last component is not dots alone |
| `Filenames.SplitsAtLastDot` | app.py:168 | "a.tar.gz" splits into "a.tar" and ".gz" |
| `Filenames.LeadingDotsAreNotExtensions` | app.py:168 | ".bashrc" and "..png" have no extension |
| `Filenames.DirectoryDotIsNotExtension` | app.py:168 | "dir.d/file" has no extension |
| `Filenames.SplitextAt` | app.py:168 | a dot with no dot after it, no slash from it on, and a non-dot between the last slash and it, is where the name splits |
| `Filenames.AllowedWithoutExtension` | app.py:47-50 | ".png" passes `allowed_file`, which reads the text after the last dot, yet `splitext` gives it no extension, because a leading dot does not start one |
| `Filenames.AllowedDotsWithoutExtension` | app.py:47-50 | the same holds for "..png": several leading dots are not an extension either, though `allowed_file` accepts the name |
| `Filenames.SplitextInsert` | app.py:168-169 | inserting dot-free, slash-free text between a stem and its extension keeps the extension |
| `Filenames.SplitextAppend` | app.py:168-169 | appending dot-free, slash-free text to a name without an extension gives a name without an extension |
| `Filenames.UniqueFilename` | app.py:169 | the stored name is one character plus the timestamp longer than the secured name, and ends with its extension |
| `Filenames.UniqueFilenameKeepsExtension` | app.py:167-169 | for every secured name, with or without an extension, the stored name splits into the stem followed by "_" and the timestamp, and the original extension |
| `Filenames.SketchFilename` | app.py:170 | the sketch name starts with "sketch_" and ends with ".png", whatever the input |
| `Filenames.SketchFilenameExtension` | app.py:170 | splitting the sketch name gives the extension ".png", whatever the input's extension |
| `Server.PathJoin` | app.py:173-174 | `os.path.join`: an absolute second part replaces the first; otherwise the folder leads, the file name ends the path, at most one '/' is inserted, and a non-empty folder is always followed by a '/' |
| `Server.Upload` | app.py:145-197 | GET shows the form; a missing field or empty name gives "No file selected" and a redirect before any extension check; a refused extension gives the invalid-type flash and nothing is saved or processed; only an allowed name is saved; the upload is written to the upload folder joined with the unique name; the result redirect happens exactly when the sketch succeeds, and carries exactly the unique and sketch names, with a database row holding the secured name, the sketch name, the upload path and the output folder joined with the sketch name; a failed sketch gives "Error processing image" and a redirect back, with no database row |
| `Server.Result` | app.py:200-210 | the result page renders exactly when both `original` and `sketch` are present and non-empty; otherwise "Invalid request" and a redirect to the upload form |
| `Server.StoredInFolders` | app.py:173-174 | a secured name not starting with '/' is stored as "static/uploads/" followed by the unique name, and every sketch as "static/outputs/" followed by its name |
| `Server.SuccessfulUploadReachesResult` | app.py:186-189 | the redirect of a successful upload always passes the `/result` check |

## Left out

- Navbar restyling on scroll, smooth scrolling of anchor links, the
  scroll-reveal animation, alert auto-dismissal, the full-screen image viewer,
  lazy-loading of images, the console banner, the rainbow keyframes and the
  service-worker stub: DOM and styling side effects with no decision logic.
- The double-submit guard on every form (disable the button, re-enable it after
  3 s): a timer-driven side effect outside the upload handlers.
- Timer durations (300 ms progress tick, 5 s rainbow, 5 s alert dismissal) and
  the Bootstrap alert widget: wall-clock scheduling and an external toolkit. The
  progress interval is modelled as a sequence of ticks; the rainbow's removal
  after 5 s is not modelled.
- Math.random: the progress step is any non-negative real, which includes the
  real range [0, 15).
- Progress.Tick: values are exact reals. Floating-point rounding and the
  `progress + '%'` string written to the bar are not modelled.
- Clicking the drop area opens the native picker. This is modelled only as its
  outcome, the `Pick` event.
- The presence checks on page elements (`if (previewImage && ...)`): the model
  assumes every element of the upload form is on the page.
- UploadPage.File: the contents and `readAsDataURL` encoding are not
  modelled. Each file carries its data URL as a given string.
- `generate_pencil_sketch`: OpenCV image numerics. Its boolean outcome is a
  parameter of `Server.Upload`.
- `init_db`, `save_to_db`, `file.save`, `send_file` and the `/download` route:
  SQLite and filesystem I/O. `Server.Upload` reports the upload path it would
  write and the row it would store.
- `secure_filename` and `datetime.now().strftime(...)`: opaque inputs (a function
  parameter and a string). `allowed_file` judges the name the client sent,
  while `splitext` splits the secured name, so the model does not relate the
  two. Lemmas about derived names assume only that the
  timestamp has no '.' or '/', which the format '%Y%m%d_%H%M%S' guarantees.
  `Server.StoredInFolders` also assumes the secured name does not start with
  '/'; `secure_filename` replaces path separators, so it never returns one
  that does.
- The `/`, `/features` and `/how-it-works` routes and the 404/413/500 error
  handlers: template rendering and framework plumbing. The 16 MB
  `MAX_CONTENT_LENGTH` limit is enforced by Flask, not by the handler.
- `url_for` URL encoding of the result arguments: the model assumes they reach
  `/result` unchanged.
- Text.Lower, Filenames.AllowedFile: `str.lower()` is modelled for ASCII
  letters only. Non-ASCII case mappings, some of which change the string's
  length, are not. Only two non-ASCII characters lower-case to text holding
  an ASCII letter: the Kelvin sign becomes 'k', and 'İ' becomes 'i' followed
  by a combining dot. No allowed extension contains a 'k' or a non-ASCII
  character, so `allowed_file`'s verdict is the same.
- Filenames.Splitext: POSIX `os.path.splitext` only (separator '/', no
  alternative separator). The Windows variant is not modelled.
- Konami.JoinInjective: the sequence-equality reading of the `join(',')`
  comparison is proved only for keys that are the comma key itself or contain
  no comma. These are the values a browser reports for `KeyboardEvent.key`.
  `Konami.CommaBearingKeyFiresEarly` shows that the restriction is needed.
