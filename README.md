# Upload validation and goal numbering, modelled in Dafny

This project models the upload validator of the `users` app
(`SecureFileUploadMixin` in `users/profile_views.py`). It also models the loop
in `update_user_goals` that numbers a user's goals.

`validate_file` looks at three things: the uploaded file's name, its declared
size, and the next 2048 bytes of its stream, read from the stream's current
position. It runs five checks in a fixed
order and stops at the first failure:

1. the declared size is at most 10 MiB;
2. the name has at most 255 characters;
3. the lower-cased `os.path.splitext` suffix of the name is one of `.pdf`,
   `.doc`, `.docx`, `.txt`, `.jpg`, `.png`;
4. the MIME type is in the allow-list. The type comes from
   `mimetypes.guess_type(name)`. When that gives nothing, the extension is
   looked up in the allow-list's reverse table;
5. none of `<script`, `javascript:`, `vbscript:`, `data:text/html`,
   `data:application/x-javascript` occurs in the ASCII-lower-cased sample.

Every failure reaches the caller as one `ValidationError` whose message starts
with `File validation failed: `. Success returns `True`.

Layout:

- `wrappers.dfy` (module `Wrappers`): `Option`, `Result`, and `Get` for `dict.get`.
- `pylib.dfy` (module `PyLib`): the Python library behaviour the validator uses,
  written as pure functions. This covers `os.path.splitext` (POSIX),
  `str.lower`/`bytes.lower` on ASCII, the bytes `in` operator, a dict built
  from pairs and its `{v: k ...}` inversion, `str.join` and `str(int)`.
- `upload_validator.dfy` (module `UploadValidator`): the allow-list and limits;
  `Validate`, the checks as a function of name, size and sample;
  `UploadedFile`, a stream with a position; and `ValidateFile`, the imperative
  `validate_file` over that stream, proved equal to `Validate`.
- `user_goals.dfy` (module `UserGoals`): the numbering loop, as a method with
  loop invariants.

Three points where the code behaves differently from what one might expect:

- The stream is not restored to where it was. `validate_file` reads from the
  current position and then seeks to 0. So a second validation is guaranteed to
  give the same verdict when the first call started at position 0, or stopped
  before the read (`ValidateTwice`). Otherwise the verdict can change
  (`RevalidationFromMidStreamCanDiffer`).
- The MIME type does not come from a content-type hint sent with the upload.
  It comes from `mimetypes.guess_type` on the name, which is modelled as a
  function parameter. `not detected_mime` is also true for an empty string, so
  an empty guess takes the fallback as well.
- The sample is read after the extension check and before the MIME check. On
  the first three rejections the stream is untouched. On a MIME or content
  rejection it is left at 0.

## Model

| member | source | states |
|---|---|---|
| PyLib.LastIndexOf | users/profile_views.py:55 | `rfind` inside `splitext`: the result is -1 or an index holding the character, and no later index holds it |
| PyLib.SplitExt | users/profile_views.py:55 | root and extension concatenate back to the name; a non-empty extension is a '.' followed by no further '.' and no '/', so it is the suffix from the last '.' of the final path component |
| PyLib.SplitExtFindsExactlyExtensions | users/profile_views.py:55 | the extension is non-empty exactly when the final component has a '.' preceded by some non-'.' character of that component (both directions) |
| PyLib.SplitExtOfPlainName | users/profile_views.py:55 | a plain `stem.ext` name whose stem does not start with '.' splits into exactly that stem and extension |
| PyLib.SplitExtWithoutDot | users/profile_views.py:55 | a name without '.' has an empty extension |
| PyLib.StrLower | users/profile_views.py:55 | `str.lower` on the extension; no contract of its own, its behaviour is stated by `StrLowerLowers` |
| PyLib.StrLowerLowers | users/profile_views.py:55 | lowering keeps the length, leaves no capital A-Z, keeps every other character and moves each capital to its small letter |
| PyLib.BytesLower | users/profile_views.py:96 | `bytes.lower` on the sample; no contract of its own, its behaviour is stated by `BytesLowerLowers` and `BytesLowerSlices` |
| PyLib.BytesLowerLowers | users/profile_views.py:96 | lowering keeps the length, leaves no byte 65-90, keeps every other byte and adds 32 to each capital |
| PyLib.BytesLowerSlices | users/profile_views.py:96 | lower-casing bytes commutes with taking a run of them |
| PyLib.Contains | users/profile_views.py:97 | the scan for `pattern in content` returns true exactly when the pattern is a contiguous run of the content |
| PyLib.DictOf | users/profile_views.py:31-38 | the dict built from the pairs has exactly the pairs' keys |
| PyLib.DictOfLookup | users/profile_views.py:31-38 | when no key repeats, each key looks up its own value |
| PyLib.DictOfValues | users/profile_views.py:56 | when no key repeats, `.values()` is exactly the set of the pairs' values |
| PyLib.ValuesInOrder | users/profile_views.py:56-57 | `.values()` in insertion order holds exactly the pairs' values |
| PyLib.InvertedDictOf | users/profile_views.py:69 | `{v: k ...}`; no contract of its own, its behaviour is stated by `InvertedDictInverts` |
| PyLib.InvertedDictInverts | users/profile_views.py:69 | when no key or value repeats, `{v: k ...}` inverts the dict: keys are the dict's values, each value maps back to its key, and every result is a key |
| PyLib.Join | users/profile_views.py:57 | `', '.join(...)`: a non-empty join starts with the first part and is at least as long as the first part plus one separator per further part |
| PyLib.JoinConcat | users/profile_views.py:57 | joining two non-empty lists is joining each with the separator between them |
| PyLib.NatToString | users/profile_views.py:47-52 | `str(n)` is a non-empty run of decimal digits with no leading zero unless n is 0 |
| PyLib.NatToStringRoundTrip | users/profile_views.py:47-52 | reading the digits of `str(n)` back gives n |
| UploadValidator.AllowListIsOneToOne | users/profile_views.py:31-38 | no MIME type and no extension appears twice in the allow-list |
| UploadValidator.AllowedExtensions | users/profile_views.py:31-38 | the allow-list's values are exactly `.pdf .doc .docx .txt .jpg .png` |
| UploadValidator.AllowedMimeTypes | users/profile_views.py:31-38 | the allow-list's keys are exactly the six MIME types |
| UploadValidator.AllowedExtensionsInOrder | users/profile_views.py:31-38 | `.values()` yields `.pdf .doc .docx .txt .jpg .png` in that order |
| UploadValidator.AllowedTypesText | users/profile_views.py:57 | the joined list the extension rejection prints is `.pdf, .doc, .docx, .txt, .jpg, .png` |
| UploadValidator.ReverseTableInverts | users/profile_views.py:67-70 | the reverse table's keys are the allowed extensions, and each maps to an allowed MIME type that lists it |
| UploadValidator.AnyContained | users/profile_views.py:97 | `any(p in s for p in patterns)` is true exactly when some pattern occurs in `s` |
| UploadValidator.ContainsSuspiciousContent | users/profile_views.py:86-97 | true exactly when one of the five markers occurs in the ASCII-lower-cased content |
| UploadValidator.SuspiciousPatternsAreLowercase | users/profile_views.py:88-94 | every marker is its own lower-case form |
| UploadValidator.DetectedInAnyCase | users/profile_views.py:96-97 | a run of the content that lower-cases to a marker (`<SCRIPT`, `JavaScript:`) is detected |
| UploadValidator.DetectedVerbatim | users/profile_views.py:88-97 | a marker written as-is anywhere in the content is detected |
| UploadValidator.SuspiciousSurvivesExtension | users/profile_views.py:97 | content found suspicious stays suspicious when bytes are added before or after it |
| UploadValidator.FileExtension | users/profile_views.py:55 | `splitext(name)[1].lower()`; no contract of its own, its behaviour is stated by `ExtensionCheck` and `PlainNameExtensionCheck` |
| UploadValidator.DetectMime | users/profile_views.py:64-70 | the guess, or the reverse-table entry when the guess is None or empty; no contract of its own, its behaviour is stated by `FallbackMimeIsAllowed` and `MimeCheck` |
| UploadValidator.Validate | users/profile_views.py:45-80 | the five checks in order; no contract of its own, its behaviour is stated by `SizeCheck`, `NameLengthCheck`, `ExtensionCheck`, `MimeCheck`, `ContentCheck` and `AcceptedExactlyWhenAllPass` |
| UploadValidator.Detail | users/profile_views.py:47-78 | the message of each rejection; no contract of its own, each message is stated by the check lemmas below |
| UploadValidator.Raised | users/profile_views.py:80-84 | `True` or the prefixed re-raised message; no contract of its own, stated by `RaisedShape` |
| UploadValidator.SizeCheck | users/profile_views.py:47-48 | rejected as too large exactly when size > 10*1024*1024, whatever the name and content; the message reads `... maximum limit of 10MB` |
| UploadValidator.NameLengthCheck | users/profile_views.py:51-52 | rejected for the name exactly when the size passes and the name has more than 255 characters (so 255 passes); message gives 255 |
| UploadValidator.ExtensionCheck | users/profile_views.py:55-57 | rejected for the extension exactly when the first two checks pass and the lower-cased `splitext` suffix is not one of the six; the message then lists `.pdf, .doc, .docx, .txt, .jpg, .png` |
| UploadValidator.ExtensionRejectionText | users/profile_views.py:55-57 | the extension rejection reaches the caller as `File validation failed: File type not allowed. Allowed types: .pdf, .doc, .docx, .txt, .jpg, .png` (the inner message; see Left out on `str(e)`) |
| UploadValidator.FallbackMimeIsAllowed | users/profile_views.py:67-70 | with no (or an empty) guess and an allowed extension, the fallback always yields an allowed MIME type |
| UploadValidator.MimeCheck | users/profile_views.py:64-74 | rejected for the MIME type exactly when the first three checks pass and the guess is a non-empty type outside the allow-list; the fallback never fails |
| UploadValidator.MimeRejectionReportsGuess | users/profile_views.py:73-74 | a MIME rejection reports the guessed type, and its message is `File type not allowed. Detected: ` followed by that type |
| UploadValidator.ContentCheck | users/profile_views.py:77-78 | rejected for content exactly when the first four checks pass and a marker occurs, in any case, in the sample; the message is `File contains suspicious content` |
| UploadValidator.AcceptedExactlyWhenAllPass | users/profile_views.py:45-80 | accepted exactly when size, name length, extension, MIME type and content all pass |
| UploadValidator.RaisedShape | users/profile_views.py:80-84 | the caller gets `True` exactly on acceptance; every failure is one message starting `File validation failed: ` |
| UploadValidator.WindowIsBoundedRun | users/profile_views.py:60 | `read(2048)` yields at most 2048 bytes, the run from the position; bytes past the window do not change it |
| UploadValidator.Window | users/profile_views.py:60 | at most n bytes, each the content's byte at the matching offset from the position, and fewer than n only when the content ends |
| UploadValidator.UploadedFile.constructor | users/profile_views.py:43 | a new upload has its name, declared size and content, with the stream at position 0 |
| UploadValidator.UploadedFile.Read | users/profile_views.py:60 | returns the bytes from the position, cut at `n` and at the end; the position moves past them |
| UploadValidator.UploadedFile.Seek | users/profile_views.py:61 | the position becomes the offset |
| UploadValidator.ValidateFile | users/profile_views.py:43-84 | the result is `Validate` of the name, size and the 2048 bytes from the starting position, raised as above; the content is unchanged; the position is 0 if the read happened, else unchanged |
| UploadValidator.ValidateTwice | users/profile_views.py:60-61 | when the stream starts at 0 or the first call stops before the read, two `validate_file` calls in a row return the same result, namely `Validate` of the window at the starting position, and leave the position where it started |
| UploadValidator.RevalidationFromMidStreamCanDiffer | users/profile_views.py:60-61 | from position 1, a file holding `<script>` passes, and from 0 (where the first call leaves it) it is rejected |
| UploadValidator.PlainNameExtensionCheck | users/profile_views.py:55-56 | a plain `stem.ext` name passes the extension check exactly when its lower-cased extension is one of the six |
| UploadValidator.ListedExtensionsPass | users/profile_views.py:55-56 | `CV.PDF`, `resume.pdf`, `a.txt` and `notes.txt` pass the extension check |
| UploadValidator.UnlistedExtensionsFail | users/profile_views.py:55-56 | `photo.jpeg` and `resume.exe` fail the extension check |
| UploadValidator.NoDotFails | users/profile_views.py:55-56 | `resume` (no extension) fails the extension check |
| UploadValidator.LeadingDotFails | users/profile_views.py:55-56 | `.pdf` (leading dot only) fails the extension check |
| UploadValidator.PdfSampleIsClean | users/profile_views.py:86-97 | `%PDF-1.4` holds no marker |
| UploadValidator.HelloWorldIsClean | users/profile_views.py:86-97 | `hello world` holds no marker |
| UploadValidator.UpperCaseScriptIsSuspicious | users/profile_views.py:86-97 | `<SCRIPT>alert(1)</SCRIPT>` is suspicious |
| UploadValidator.ScriptTagSplit | users/profile_views.py:86-97 | `<script>` is suspicious; the same bytes without the first are not |
| UploadValidator.PdfAccepted | users/profile_views.py:45-80 | `resume.pdf` guessed as `application/pdf` with content `%PDF-1.4` is accepted |
| UploadValidator.PdfWithScriptRejected | users/profile_views.py:45-80 | the same file starting `<SCRIPT>` is rejected for its content |
| UploadValidator.TextExample | users/profile_views.py:45-80 | `a.txt` guessed as `text/plain` holding `hello world` is accepted |
| UploadValidator.MarkerPastSampleIgnored | users/profile_views.py:60-78 | 2048 harmless bytes followed by `<script>`: the whole content is suspicious, yet the file is accepted |
| UserGoals.NumberGoals | users/profile_views.py:319-325 | the records are the goals in order, for the user, the i-th (from 0) with priority i+1 |
| UserGoals.PrioritiesAreOneToN | users/profile_views.py:319-325 | numbered records carry exactly the priorities 1..n, rising along the list, and give back the submitted goals in order |

## Left out

- The REST handlers, ORM queries, `get_or_create`, `transaction.atomic`,
  `bulk_create`, serializers and permission classes of
  `users/profile_views.py` are CRUD plumbing over an ORM. In
  `update_user_goals` only the numbering loop is modelled. The delete of the
  old goals and the bulk insert are not.
- `mimetypes.guess_type` is a parameter `string -> Option<string>`. Its table
  depends on the platform and the library, so the model does not fix it.
- UploadValidator.FileExtension: lower-cases only the ASCII letters. Python's
  `str.lower` also maps non-ASCII capitals, but this does not change any
  verdict. The only single character outside ASCII that lower-cases to an
  ASCII letter is KELVIN SIGN (to `k`), and no allowed extension contains
  `k`. `İ` lower-cases to two characters, one of them not ASCII. Every other
  non-ASCII character stays outside ASCII. So an extension is admitted by the
  model exactly when Python admits it.
- PyLib.SplitExt: POSIX `splitext`, with '/' as the only separator. The
  Windows flavour, where '\\' also separates, is not modelled.
- The exact text of `str(e)` is not modelled. Django renders it as a list
  (`['...']`). The model keeps the prefix and the inner message. Logging is
  left out too.
- Faults raised while reading the stream are not modelled. The `except
  Exception` clause would wrap them in the same prefixed error. Reads always
  succeed here.
- The default `confidence_score` of 0.90 is a float, and the
  "joined in the last 24 hours" test in `google_signups_list` depends on the
  clock. Both are left out.
- The migrations under `users/migrations/` are declarative schema
  descriptions with no behaviour.
