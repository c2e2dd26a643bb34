/**
 * The upload application: its configuration constants, the extension check
 * `allowed_file`, the placeholder `process_image`, and the decision made by
 * the `/` route `upload_file` for each shape of request.
 */
module App {
  import opened Wrappers
  import PyStr
  import PosixPath

  /** Directory uploads are written to; it ends in '/'. */
  const UPLOAD_FOLDER: string := "static/uploads/"

  /** Extensions `allowed_file` accepts, compared after lower-casing. */
  const ALLOWED_EXTENSIONS: set<string> := {"png", "jpg", "jpeg", "gif"}

  /**
   * Upload size cap in bytes (16 MiB). The framework checks it when the
   * request body is first parsed, which here is the first read of
   * `request.files`.
   */
  const MAX_CONTENT_LENGTH: nat := 16 * 1024 * 1024

  /** The text `process_image` reports for every image. */
  const PLACEHOLDER_TEXT: string := "Image processed successfully! (This is a placeholder)"

  // ---------------------------------------------------------------------
  // allowed_file

  /**
   * An extension is allowed when its lower-cased form is one of
   * `ALLOWED_EXTENSIONS`; every allowed extension is three or four
   * characters long and has no '.'.
   */
  function AllowedExtension(ext: string): (ok: bool)
    ensures ok ==> 3 <= |ext| <= 4
    ensures ok ==> '.' !in ext
  {
    var lowered := PyStr.Lower(ext);
    if lowered in ALLOWED_EXTENSIONS then
      assert '.' !in lowered;
      assert forall i :: 0 <= i < |ext| ==> ext[i] != '.' by {
        forall i | 0 <= i < |ext| ensures ext[i] != '.' {
          assert lowered[i] == PyStr.LowerChar(ext[i]);
          assert lowered[i] in lowered;
        }
      }
      true
    else
      false
  }

  /**
   * `allowed_file`: the name has a '.', and the text after its last '.' is an
   * allowed extension. An accepted name therefore has a '.', is at least four
   * characters long and does not end in '.'.
   */
  function AllowedFile(filename: string): (ok: bool)
    ensures ok ==> '.' in filename
    ensures ok ==> |filename| >= 4
    ensures ok ==> filename[|filename| - 1] != '.'
  {
    '.' in filename && AllowedExtension(PyStr.RSplitOnce(filename, '.')[1])
  }

  /** A name without a '.' is never accepted, whatever it contains. */
  lemma NoDotRejected(filename: string)
    requires '.' !in filename
    ensures !AllowedFile(filename)
  {
  }

  /** Once the last '.' is located, `allowed_file` judges the text after it and nothing else. */
  lemma AllowedFileAtLastDot(filename: string, i: nat)
    requires i < |filename| && filename[i] == '.' && '.' !in filename[i + 1..]
    ensures AllowedFile(filename) <==> AllowedExtension(filename[i + 1..])
  {
    PyStr.LastIndexOfUnique(filename, '.', i);
  }

  /**
   * The checked extension is exactly the text after the last '.': whatever
   * precedes it, dots included, plays no part.
   */
  lemma ExtensionAfterLastDot(stem: string, ext: string)
    requires '.' !in ext
    ensures AllowedFile(stem + "." + ext) <==> AllowedExtension(ext)
  {
    var f := stem + "." + ext;
    assert f[|stem|] == '.';
    assert f[|stem| + 1..] == ext;
    AllowedFileAtLastDot(f, |stem|);
  }

  /**
   * `allowed_file` in full: it accepts exactly the names with a '.' at some
   * position `i`, no '.' after `i`, and an allowed extension after `i`.
   */
  lemma AllowedFileIff(filename: string)
    ensures AllowedFile(filename) <==>
      exists i :: 0 <= i < |filename| && filename[i] == '.' && '.' !in filename[i + 1..] &&
        AllowedExtension(filename[i + 1..])
  {
    if AllowedFile(filename) {
      var i := PyStr.LastIndexOf(filename, '.').value;
      AllowedFileAtLastDot(filename, i);
    }
    if exists i :: 0 <= i < |filename| && filename[i] == '.' && '.' !in filename[i + 1..] &&
        AllowedExtension(filename[i + 1..]) {
      var i :| 0 <= i < |filename| && filename[i] == '.' && '.' !in filename[i + 1..] &&
        AllowedExtension(filename[i + 1..]);
      AllowedFileAtLastDot(filename, i);
    }
  }

  /** Extensions that agree once lower-cased are allowed or refused together. */
  lemma AllowedExtensionCaseInsensitive(x: string, y: string)
    requires PyStr.Lower(x) == PyStr.Lower(y)
    ensures AllowedExtension(x) <==> AllowedExtension(y)
  {
  }

  /** The check ignores case: names that agree once lower-cased are accepted or rejected together. */
  lemma AllowedFileCaseInsensitive(f: string, g: string)
    requires PyStr.Lower(f) == PyStr.Lower(g)
    ensures AllowedFile(f) <==> AllowedFile(g)
  {
    PyStr.LowerSameDots(f, g);
    PyStr.LastIndexOfSamePositions(f, g, '.');
    var r := PyStr.LastIndexOf(f, '.');
    if r.None? {
      NoDotRejected(f);
      NoDotRejected(g);
    } else {
      var i := r.value;
      AllowedFileAtLastDot(f, i);
      AllowedFileAtLastDot(g, i);
      PyStr.LowerSuffix(f, i + 1);
      PyStr.LowerSuffix(g, i + 1);
      AllowedExtensionCaseInsensitive(f[i + 1..], g[i + 1..]);
    }
  }

  /** In particular a name is accepted exactly when its lower-cased form is. */
  lemma AllowedFileOfLower(f: string)
    ensures AllowedFile(PyStr.Lower(f)) <==> AllowedFile(f)
  {
    PyStr.LowerIdempotent(f);
    AllowedFileCaseInsensitive(PyStr.Lower(f), f);
  }

  // The edge cases of `allowed_file`, one lemma each.

  /** Several dots: the text after the last one, "png", is what is checked. */
  lemma SeveralDotsAccepted()
    ensures AllowedFile("a.tar.png")
  {
    AllowedFileAtLastDot("a.tar.png", 5);
    assert PyStr.Lower("png") == "png";
  }

  /** Several dots: an allowed extension before the last dot does not help. */
  lemma SeveralDotsRejected()
    ensures !AllowedFile("a.png.exe")
  {
    AllowedFileAtLastDot("a.png.exe", 5);
    assert PyStr.Lower("exe") == "exe";
  }

  /** A trailing dot leaves an empty extension, which is rejected. */
  lemma TrailingDotRejected()
    ensures !AllowedFile("file.")
  {
    AllowedFileAtLastDot("file.", 4);
  }

  /** A leading dot leaves an empty stem, which does not matter. */
  lemma LeadingDotAccepted()
    ensures AllowedFile(".png")
  {
    AllowedFileAtLastDot(".png", 0);
    assert PyStr.Lower("png") == "png";
  }

  /** An upper-case extension is accepted. */
  lemma UpperCaseAccepted()
    ensures AllowedFile("X.JPG")
  {
    AllowedFileAtLastDot("X.JPG", 1);
    assert PyStr.Lower("JPG") == "jpg";
  }

  /** A mixed-case extension is accepted. */
  lemma MixedCaseAccepted()
    ensures AllowedFile("photo.JpEg")
  {
    AllowedFileAtLastDot("photo.JpEg", 5);
    assert PyStr.Lower("JpEg") == "jpeg";
  }

  // ---------------------------------------------------------------------
  // process_image

  /** `process_image`: a placeholder that hands back the path it was given and a fixed message. */
  function ProcessImage(filepath: string): (result: (string, string))
    ensures result.0 == filepath
    ensures result.1 == PLACEHOLDER_TEXT
  {
    (filepath, PLACEHOLDER_TEXT)
  }

  // ---------------------------------------------------------------------
  // upload_file

  /**
   * What this model assumes of werkzeug's `secure_filename`, whose code is
   * not part of it: its result contains no '/'.
   */
  type SafeName = s: string | '/' !in s

  /** One entry of `request.files`: the client-supplied name of the uploaded file. */
  datatype FilePart = FilePart(filename: string)

  /**
   * The parts of a request that `upload_file` looks at; `verb` is
   * `request.method` and `contentLength` the size of the body in bytes.
   */
  datatype Request = Request(verb: string, url: string, contentLength: nat, files: map<string, FilePart>)

  /**
   * The three responses `upload_file` can give, and the 413 error the
   * framework raises when `request.files` is read from an oversized body.
   */
  datatype Response =
    | Redirect(location: string)
    | RenderIndex
    | RenderResult(imageName: string, resultText: string)
    | PayloadTooLarge

  /** A response, and the path the upload was saved to (`None` when nothing was saved). */
  datatype Outcome = Outcome(response: Response, saved: Option<string>)

  /** werkzeug's `FileStorage` is truthy exactly when its filename is non-empty. */
  function FileIsTruthy(file: FilePart): (truthy: bool)
    ensures truthy <==> |file.filename| > 0
  {
    file.filename != ""
  }

  predicate IsPost(req: Request)
  {
    req.verb == "POST"
  }

  /** A POST whose body is within `MAX_CONTENT_LENGTH`, so that `request.files` can be read. */
  predicate IsParsablePost(req: Request)
  {
    IsPost(req) && req.contentLength <= MAX_CONTENT_LENGTH
  }

  /** A parsable POST that carries a `file` part with a non-empty name. */
  predicate HasNamedFile(req: Request)
  {
    IsParsablePost(req) && "file" in req.files && req.files["file"].filename != ""
  }

  /**
   * `upload_file`: GET renders the form; a POST without a usable file part
   * redirects back; a POST with an allowed name saves the upload under its
   * sanitised name in `UPLOAD_FOLDER` and renders the result for that name;
   * a POST with any other name falls through to rendering the form. A POST
   * whose body exceeds `MAX_CONTENT_LENGTH` fails with 413 at the first read
   * of `request.files`.
   */
  function UploadFile(req: Request, secureFilename: string -> SafeName): (out: Outcome)
    // A GET (anything but POST) renders the form and saves nothing.
    ensures !IsPost(req) ==> out == Outcome(RenderIndex, None)
    // An oversized POST fails with 413 before any branch on the files is taken.
    ensures IsPost(req) && req.contentLength > MAX_CONTENT_LENGTH ==> out == Outcome(PayloadTooLarge, None)
    // A POST without a `file` part, or with an empty filename, redirects to the request URL.
    ensures IsParsablePost(req) && !HasNamedFile(req) ==> out == Outcome(Redirect(req.url), None)
    // A POST whose filename `allowed_file` rejects gets the same outcome as a GET.
    ensures HasNamedFile(req) && !AllowedFile(req.files["file"].filename) ==>
      out == Outcome(RenderIndex, None)
    // An accepted upload is saved directly inside UPLOAD_FOLDER under its sanitised
    // name, and that name is the image name shown.
    ensures HasNamedFile(req) && AllowedFile(req.files["file"].filename) ==>
      var name := secureFilename(req.files["file"].filename);
      out == Outcome(RenderResult(name, PLACEHOLDER_TEXT), Some(UPLOAD_FOLDER + name))
    // Something is saved exactly when a result page is rendered.
    ensures out.saved.Some? <==> out.response.RenderResult?
  {
    if req.verb == "POST" then
      if req.contentLength > MAX_CONTENT_LENGTH then
        Outcome(PayloadTooLarge, None)
      else if "file" !in req.files then
        Outcome(Redirect(req.url), None)
      else
        var file := req.files["file"];
        if file.filename == "" then
          Outcome(Redirect(req.url), None)
        else if FileIsTruthy(file) && AllowedFile(file.filename) then
          var filename := secureFilename(file.filename);
          var filepath := PosixPath.Join(UPLOAD_FOLDER, filename);
          var (processedImagePath, resultText) := ProcessImage(filepath);
          var processedFilename := PosixPath.Basename(processedImagePath);
          PosixPath.BasenameOfJoin(UPLOAD_FOLDER, filename);
          assert UPLOAD_FOLDER[|UPLOAD_FOLDER| - 1] == '/';
          PosixPath.JoinUnderDirectory(UPLOAD_FOLDER, filename);
          Outcome(RenderResult(processedFilename, resultText), Some(filepath))
        else
          Outcome(RenderIndex, None)
    else
      Outcome(RenderIndex, None)
  }
}
