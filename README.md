# Image upload application: a Dafny model of `app.py`

The application is a small Flask site. Its `/` route shows an upload form on GET.
On POST it checks the uploaded file's name against an extension allow-list
(`allowed_file`), saves the file under a sanitised name in `static/uploads/`,
runs a placeholder "processing" step (`process_image`), and renders a result page
that names the stored image.

This project models that logic as pure Dafny functions, with lemmas about them:

- `py_str.dfy` (module `PyStr`) models the Python string operations that
  `allowed_file` uses: finding the last occurrence of a character,
  `str.rsplit(sep, 1)` and `str.lower()`.
- `posix_path.dfy` (module `PosixPath`) models `os.path.join` and
  `os.path.basename` for '/'-separated paths.
- `app.dfy` (module `App`) holds the configuration constants, `allowed_file`,
  `process_image` and the decision made by `upload_file`.
  A request is reduced to what the handler reads: its method, its URL, its
  body size and its `files` map. The outcome is one of three responses
  (redirect, index form, or result page with an image name), or the 413 error
  for an oversized upload. The outcome also records the path the upload is
  saved to, if any.
- `wrappers.dfy` (module `Wrappers`) holds the `Option` type.

`secure_filename` comes from werkzeug, and its code is not part of this model.
The model takes it as a parameter `secureFilename: string -> SafeName`, where
`SafeName` is a string without '/'. That is the only property the model assumes
of it.

Only a missing `file` part or an empty filename is redirected
(`app.py:64-66`, `app.py:72-74`). A name with a disallowed extension falls
through to rendering the form (`app.py:77`, `app.py:97`).

## Model

| member | source | states |
|---|---|---|
| `PyStr.LastIndexOf` | app.py:34 | finds the last occurrence of a character: there is none exactly when the character does not occur; otherwise it is at the returned index and nowhere after it |
| `PyStr.LastIndexOfUnique` | app.py:34 | any occurrence with no later occurrence is the one found |
| `PyStr.RSplitOnce` | app.py:34 | `rsplit(sep, 1)` gives `[s]` when `sep` does not occur; otherwise two parts that rejoin around `sep` to give `s`, the second part free of `sep` |
| `PyStr.Lower` | app.py:34 | lower-casing keeps the length and maps each character on its own |
| `PyStr.LowerIdempotent` | app.py:34 | lower-casing twice is the same as lower-casing once |
| `PyStr.LastIndexOfSamePositions` | app.py:34 | two strings with the same positions of a character have the same last occurrence of it |
| `PyStr.LowerChar` | app.py:34 | the per-character lower-casing: an ASCII upper-case letter becomes its lower-case partner, every other character is kept, and the result is never an ASCII upper-case letter |
| `App.AllowedExtension` | app.py:16 | the allow-list test on an extension, compared lower-cased; an allowed extension is three or four characters long and has no '.' |
| `App.AllowedFile` | app.py:30-34 | `allowed_file`: a '.' must occur and the text after the last one must be an allowed extension; an accepted name has a '.', has at least four characters and does not end in '.' |
| `App.AllowedFileAtLastDot` | app.py:33-34 | once the last '.' is located, acceptance depends only on the text after it, lower-cased, being in the allow-list |
| `App.NoDotRejected` | app.py:33 | a name without '.' is rejected, whatever else it contains |
| `App.ExtensionAfterLastDot` | app.py:34 | for `stem + "." + ext` with no '.' in `ext`, acceptance is exactly whether `ext` is allowed; the stem, dots included, plays no part |
| `App.AllowedFileIff` | app.py:30-34 | both directions: accepted iff some '.' has no '.' after it and the lower-cased text after it is png, jpg, jpeg or gif |
| `App.AllowedExtensionCaseInsensitive` | app.py:34 | two extensions that agree once lower-cased are allowed or refused together |
| `App.AllowedFileCaseInsensitive` | app.py:34 | two names that agree once lower-cased are accepted or rejected together |
| `App.AllowedFileOfLower` | app.py:34 | a name is accepted exactly when its lower-cased form is |
| `App.SeveralDotsAccepted` | app.py:33-34 | "a.tar.png" is accepted |
| `App.SeveralDotsRejected` | app.py:33-34 | "a.png.exe" is rejected |
| `App.TrailingDotRejected` | app.py:33-34 | "file." is rejected, because its extension is empty |
| `App.LeadingDotAccepted` | app.py:33-34 | ".png" is accepted, because the empty stem does not matter |
| `App.UpperCaseAccepted` | app.py:33-34 | "X.JPG" is accepted |
| `App.MixedCaseAccepted` | app.py:33-34 | "photo.JpEg" is accepted |
| `App.ProcessImage` | app.py:39-54 | the placeholder returns the path it was given, unchanged, with the fixed message |
| `PosixPath.Join` | app.py:82 | the joined path ends with the second component; an absolute second component, or an empty first one, gives the second component alone; otherwise the result starts with the first component and is at most one character longer than the two together, exactly as long when the first ends in '/'; whatever precedes the second component is a '/'. These clauses determine the result |
| `PosixPath.JoinUnderDirectory` | app.py:82 | under a directory ending in '/', joining a relative name is plain concatenation |
| `PosixPath.Basename` | app.py:91 | the basename has no '/'; it is a suffix of the path; it is either the whole path or preceded by a '/' |
| `PosixPath.BasenameOfJoin` | app.py:82-91 | the basename of a '/'-free name joined under any directory is that name |
| `App.FileIsTruthy` | app.py:77 | the truth value of the uploaded file object: true exactly when its filename is non-empty |
| `App.UploadFile` | app.py:60-97 | anything but POST renders the form and saves nothing; a POST whose body exceeds `MAX_CONTENT_LENGTH` fails with 413 and saves nothing; a parsable POST without a `file` part or with an empty filename redirects to the request URL and saves nothing; a POST with a rejected name gets the same outcome as a GET; an accepted upload is saved at `UPLOAD_FOLDER` + its sanitised name, and the result page shows that sanitised name and the placeholder message; something is saved exactly when a result page is rendered |

## Left out

- Flask routing, `request`, `redirect` and `render_template`: only the outcome of each branch is modelled, as a `Response` value.
- `file.save`: the model records only the path the file would be written to. It does not model the write, or its failure. One failure case is a sanitised name that is empty, which leaves the path naming the directory itself.
- The `/uploads/<filename>` route (`app.py:101-104`): it only reads a file from disk with `send_from_directory`.
- Creating the upload directory and starting the server (`app.py:107-113`): process start-up.
- `MAX_CONTENT_LENGTH` (`app.py:25`, 16 * 1024 * 1024 = 16777216): werkzeug checks it lazily, when the body is first parsed; here that is the first read of `request.files` (`app.py:64`). The model gives an oversized POST the 413 outcome at that point, and leaves an oversized GET unchecked, since its body is never read. The model treats the body size as one known number. It does not model werkzeug applying the limit while streaming a body with no declared length.
- The internals of werkzeug's `secure_filename`: its code is not part of this model. It is a parameter whose results contain no '/'.
- `PyStr.Lower`: covers only ASCII letters. Python's `str.lower` also maps non-ASCII characters. None of those maps to a single character of "png", "jpg", "jpeg" or "gif", so acceptance comes out the same; the model does not prove this.
- `PosixPath.Join`: models the two-argument form of `posixpath.join`, the only form `app.py` uses.
- `request.files` is a map from field names to files. Several files under one field name are not modelled; the handler reads only the first.
- `file` truthiness (`app.py:77`): `FileIsTruthy` follows werkzeug's `FileStorage`, whose code is not part of this model. At that point it always holds.
- Image classification: `process_image` is a placeholder, and no inference code exists in `app.py`.
