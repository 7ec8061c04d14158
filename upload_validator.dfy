/** The upload validator `SecureFileUploadMixin` of users/profile_views.py: a
    static allow-list of MIME types and extensions, two limits, and
    `validate_file`, which runs five checks in a fixed order and stops at the
    first one that fails. */
module UploadValidator {
  import opened Wrappers
  import opened PyLib

  // ---------------------------------------------------------------------
  // The allow-list and the limits

  /** ALLOWED_FILE_TYPES as its literal: (MIME type, extension) pairs in the
      order they are written, which is the order `.values()` yields them. */
  const AllowedEntries: seq<(string, string)> := [
    ("application/pdf", ".pdf"),
    ("application/msword", ".doc"),
    ("application/vnd.openxmlformats-officedocument.wordprocessingml.document", ".docx"),
    ("text/plain", ".txt"),
    ("image/jpeg", ".jpg"),
    ("image/png", ".png")
  ]

  /** ALLOWED_FILE_TYPES: MIME type to extension. */
  const AllowedFileTypes: map<string, string> := DictOf(AllowedEntries)

  /** `ALLOWED_FILE_TYPES.values()` in order, as the rejection message lists them. */
  const AllowedExtensionList: seq<string> := ValuesInOrder(AllowedEntries)

  /** `{v: k for k, v in ALLOWED_FILE_TYPES.items()}`: extension to MIME type. */
  const ExtensionToMime: map<string, string> := InvertedDictOf(AllowedEntries)

  const MaxFileSize: nat := 10 * 1024 * 1024
  const MaxFilenameLength: nat := 255

  /** How many leading bytes `validate_file` reads for the content scan. */
  const SampleSize: nat := 2048

  lemma AllowListIsOneToOne()
    ensures OneToOne(AllowedEntries)
  {
  }

  /** The extensions the allow-list admits. */
  lemma AllowedExtensions()
    ensures AllowedFileTypes.Values == {".pdf", ".doc", ".docx", ".txt", ".jpg", ".png"}
  {
    AllowListIsOneToOne();
    DictOfValues(AllowedEntries);
    AllowedExtensionsInOrder();
  }

  /** `.values()` yields the extensions in the order they are written. */
  lemma AllowedExtensionsInOrder()
    ensures AllowedExtensionList == [".pdf", ".doc", ".docx", ".txt", ".jpg", ".png"]
  {
  }

  /** The list the extension rejection prints. */
  lemma AllowedTypesText()
    ensures Join(", ", AllowedExtensionList) == ".pdf, .doc, .docx, .txt, .jpg, .png"
  {
    var l := AllowedExtensionList;
    AllowedExtensionsInOrder();
    assert Join(", ", l[..1]) == ".pdf";
    assert l[..2][..1] == l[..1];
    assert Join(", ", l[..2]) == ".pdf, .doc";
    assert l[..3][..2] == l[..2];
    assert Join(", ", l[..3]) == ".pdf, .doc, .docx";
    assert l[..4][..3] == l[..3];
    assert Join(", ", l[..4]) == ".pdf, .doc, .docx, .txt";
    assert l[..5][..4] == l[..4];
    assert Join(", ", l[..5]) == ".pdf, .doc, .docx, .txt, .jpg";
    assert l[..6][..5] == l[..5];
    assert l[..6] == l;
  }

  /** The MIME types the allow-list admits. */
  lemma AllowedMimeTypes()
    ensures AllowedFileTypes.Keys == {
      "application/pdf", "application/msword",
      "application/vnd.openxmlformats-officedocument.wordprocessingml.document",
      "text/plain", "image/jpeg", "image/png"}
  {
    var ks := set i | 0 <= i < |AllowedEntries| :: AllowedEntries[i].0;
    forall i | 0 <= i < |AllowedEntries|
      ensures AllowedEntries[i].0 in {
        "application/pdf", "application/msword",
        "application/vnd.openxmlformats-officedocument.wordprocessingml.document",
        "text/plain", "image/jpeg", "image/png"}
    {
    }
    assert AllowedEntries[0].0 in ks && AllowedEntries[1].0 in ks && AllowedEntries[2].0 in ks;
    assert AllowedEntries[3].0 in ks && AllowedEntries[4].0 in ks && AllowedEntries[5].0 in ks;
  }

  /** The reverse table undoes the allow-list: each allowed extension maps back
      to the MIME type that lists it, and only allowed extensions are in it. */
  lemma ReverseTableInverts()
    ensures ExtensionToMime.Keys == AllowedFileTypes.Values
    ensures forall ext :: ext in ExtensionToMime ==>
      ExtensionToMime[ext] in AllowedFileTypes && AllowedFileTypes[ExtensionToMime[ext]] == ext
    ensures forall mime :: mime in AllowedFileTypes ==> ExtensionToMime[AllowedFileTypes[mime]] == mime
  {
    AllowListIsOneToOne();
    InvertedDictInverts(AllowedEntries);
  }

  // ---------------------------------------------------------------------
  // The content scan

  /** The markers `_contains_suspicious_content` looks for, all lower case. */
  const SuspiciousPatterns: seq<seq<Byte>> := [
    AsciiBytes("<script"),
    AsciiBytes("javascript:"),
    AsciiBytes("vbscript:"),
    AsciiBytes("data:text/html"),
    AsciiBytes("data:application/x-javascript")
  ]

  /** `any(pattern in s for pattern in patterns)`. */
  function AnyContained(patterns: seq<seq<Byte>>, s: seq<Byte>): (r: bool)
    ensures r <==> exists k :: 0 <= k < |patterns| && Occurs(patterns[k], s)
  {
    if |patterns| == 0 then false
    else
      var r := Contains(s, patterns[0]) || AnyContained(patterns[1..], s);
      assert forall k :: 0 < k < |patterns| ==> patterns[k] == patterns[1..][k - 1];
      r
  }

  /** `_contains_suspicious_content`: true exactly when some marker occurs in
      the ASCII-lowercased content. */
  function ContainsSuspiciousContent(fileContent: seq<Byte>): (r: bool)
    ensures r <==> exists k :: 0 <= k < |SuspiciousPatterns| && Occurs(SuspiciousPatterns[k], BytesLower(fileContent))
  {
    AnyContained(SuspiciousPatterns, BytesLower(fileContent))
  }

  lemma SuspiciousPatternsAreLowercase()
    ensures forall k :: 0 <= k < |SuspiciousPatterns| ==> BytesLower(SuspiciousPatterns[k]) == SuspiciousPatterns[k]
  {
  }

  /** Detection ignores case: a run of the content that lowercases to a marker
      (`<SCRIPT`, `JavaScript:`, ...) makes the content suspicious. */
  lemma DetectedInAnyCase(fileContent: seq<Byte>, k: int, i: int)
    requires 0 <= k < |SuspiciousPatterns|
    requires 0 <= i <= |fileContent| - |SuspiciousPatterns[k]|
    requires BytesLower(fileContent[i..i + |SuspiciousPatterns[k]|]) == SuspiciousPatterns[k]
    ensures ContainsSuspiciousContent(fileContent)
  {
    var p := SuspiciousPatterns[k];
    BytesLowerSlices(fileContent, i, i + |p|);
    assert OccursAt(p, BytesLower(fileContent), i);
  }

  /** A marker written verbatim is detected. */
  lemma DetectedVerbatim(fileContent: seq<Byte>, k: int, i: int)
    requires 0 <= k < |SuspiciousPatterns|
    requires 0 <= i <= |fileContent| - |SuspiciousPatterns[k]|
    requires fileContent[i..i + |SuspiciousPatterns[k]|] == SuspiciousPatterns[k]
    ensures ContainsSuspiciousContent(fileContent)
  {
    SuspiciousPatternsAreLowercase();
    DetectedInAnyCase(fileContent, k, i);
  }

  /** A marker found somewhere stays found when bytes are added before or after. */
  lemma SuspiciousSurvivesExtension(fileContent: seq<Byte>, before: seq<Byte>, after: seq<Byte>)
    requires ContainsSuspiciousContent(fileContent)
    ensures ContainsSuspiciousContent(before + fileContent + after)
  {
    var k :| 0 <= k < |SuspiciousPatterns| && Occurs(SuspiciousPatterns[k], BytesLower(fileContent));
    var p := SuspiciousPatterns[k];
    var i :| OccursAt(p, BytesLower(fileContent), i);
    var whole := before + fileContent + after;
    var j := |before| + i;
    assert whole[j..j + |p|] == fileContent[i..i + |p|];
    BytesLowerSlices(fileContent, i, i + |p|);
    BytesLowerSlices(whole, j, j + |p|);
    assert OccursAt(p, BytesLower(whole), j);
  }

  // ---------------------------------------------------------------------
  // The checks, as a function of the file's name, declared size and sample

  /** Why `validate_file` raises, with the value its message embeds. */
  datatype Rejection =
    | FileTooLarge(limitMb: nat)
    | FilenameTooLong(maxLength: nat)
    | ExtensionNotAllowed(allowed: seq<string>)
    | MimeNotAllowed(detected: Option<string>)
    | SuspiciousContent

  datatype Outcome = Accepted | Rejected(reason: Rejection)

  /** `os.path.splitext(name)[1].lower()`. */
  function FileExtension(name: string): string {
    StrLower(SplitExt(name).1)
  }

  /** `mimetypes.guess_type(name)`, and when that gives nothing (None, or the
      empty string, which Python also treats as false) the reverse table's
      entry for the extension, which may be missing. */
  function DetectMime(name: string, guess: string -> Option<string>): Option<string> {
    var guessed := guess(name);
    if guessed.None? || guessed.value == "" then Get(ExtensionToMime, FileExtension(name))
    else guessed
  }

  /** What `validate_file` decides for a file with this name and declared size
      whose first bytes (at most `SampleSize`) are `sample`. */
  function Validate(name: string, size: int, sample: seq<Byte>, guess: string -> Option<string>): Outcome {
    if size > MaxFileSize then Rejected(FileTooLarge(MaxFileSize / (1024 * 1024)))
    else if |name| > MaxFilenameLength then Rejected(FilenameTooLong(MaxFilenameLength))
    else if FileExtension(name) !in AllowedFileTypes.Values then Rejected(ExtensionNotAllowed(AllowedExtensionList))
    else
      var detectedMime := DetectMime(name, guess);
      if detectedMime.None? || detectedMime.value !in AllowedFileTypes then Rejected(MimeNotAllowed(detectedMime))
      else if ContainsSuspiciousContent(sample) then Rejected(SuspiciousContent)
      else Accepted
  }

  /** The text of the `ValidationError` raised inside the `try`. */
  function Detail(reason: Rejection): string {
    match reason
    case FileTooLarge(limitMb) =>
      "File size exceeds maximum limit of " + NatToString(limitMb) + "MB"
    case FilenameTooLong(maxLength) =>
      "Filename too long. Maximum length is " + NatToString(maxLength) + " characters"
    case ExtensionNotAllowed(allowed) =>
      "File type not allowed. Allowed types: " + Join(", ", allowed)
    case MimeNotAllowed(detected) =>
      "File type not allowed. Detected: " + (if detected.None? then "None" else detected.value)
    case SuspiciousContent =>
      "File contains suspicious content"
  }

  const FailurePrefix: string := "File validation failed: "

  /** What the caller sees: `True`, or the single re-raised `ValidationError`. */
  function Raised(outcome: Outcome): Result<bool, string> {
    match outcome
    case Accepted => Success(true)
    case Rejected(reason) => Failure(FailurePrefix + Detail(reason))
  }

  predicate PassesSize(size: int) { size <= MaxFileSize }
  predicate PassesNameLength(name: string) { |name| <= MaxFilenameLength }
  predicate PassesExtension(name: string) { FileExtension(name) in AllowedFileTypes.Values }

  /** The first three checks, which run before the stream is read. */
  predicate PassesNameChecks(name: string, size: int) {
    PassesSize(size) && PassesNameLength(name) && PassesExtension(name)
  }

  // ---------------------------------------------------------------------
  // What the checks promise

  /** The size check runs first: a file is rejected as too large exactly when
      its declared size exceeds 10 MiB, whatever its name and content, and the
      message names the limit as 10MB. */
  lemma SizeCheck(name: string, size: int, sample: seq<Byte>, guess: string -> Option<string>)
    ensures Validate(name, size, sample, guess) == Rejected(FileTooLarge(10)) <==> size > 10 * 1024 * 1024
    ensures size > 10 * 1024 * 1024 ==>
      Raised(Validate(name, size, sample, guess)) == Failure(FailurePrefix + "File size exceeds maximum limit of 10MB")
  {
    assert MaxFileSize / (1024 * 1024) == 10;
    assert NatToString(10) == NatToString(1) + [DigitChar(0)] == "10";
    assert Detail(FileTooLarge(10)) == "File size exceeds maximum limit of 10MB";
    if size > 10 * 1024 * 1024 {
      assert Validate(name, size, sample, guess) == Rejected(FileTooLarge(10));
    }
  }

  /** The name length check runs second: a file within the size limit is
      rejected for its name exactly when the name has more than 255
      characters; 255 passes. */
  lemma NameLengthCheck(name: string, size: int, sample: seq<Byte>, guess: string -> Option<string>)
    ensures Validate(name, size, sample, guess).Rejected? && Validate(name, size, sample, guess).reason.FilenameTooLong?
      <==> size <= MaxFileSize && |name| > 255
    ensures size <= MaxFileSize && |name| > 255 ==>
      Raised(Validate(name, size, sample, guess)) == Failure(FailurePrefix + "Filename too long. Maximum length is 255 characters")
  {
    assert NatToString(25) == NatToString(2) + [DigitChar(5)] == "25";
    assert NatToString(255) == NatToString(25) + [DigitChar(5)] == "255";
    assert Detail(FilenameTooLong(255)) == "Filename too long. Maximum length is 255 characters";
    if size <= MaxFileSize && |name| > 255 {
      assert Validate(name, size, sample, guess) == Rejected(FilenameTooLong(255));
    }
  }

  /** The extension check runs third and admits exactly the six lower-cased
      `splitext` suffixes of the allow-list. */
  lemma ExtensionCheck(name: string, size: int, sample: seq<Byte>, guess: string -> Option<string>)
    ensures Validate(name, size, sample, guess).Rejected? && Validate(name, size, sample, guess).reason.ExtensionNotAllowed?
      <==> size <= MaxFileSize && |name| <= MaxFilenameLength
           && StrLower(SplitExt(name).1) !in {".pdf", ".doc", ".docx", ".txt", ".jpg", ".png"}
    ensures Validate(name, size, sample, guess).Rejected? && Validate(name, size, sample, guess).reason.ExtensionNotAllowed? ==>
      Raised(Validate(name, size, sample, guess))
        == Failure(FailurePrefix + "File type not allowed. Allowed types: .pdf, .doc, .docx, .txt, .jpg, .png")
  {
    AllowedExtensions();
    var v := Validate(name, size, sample, guess);
    if v.Rejected? && v.reason.ExtensionNotAllowed? {
      assert v == Rejected(ExtensionNotAllowed(AllowedExtensionList));
      ExtensionRejectionText();
    }
  }

  lemma ExtensionRejectionText()
    ensures Raised(Rejected(ExtensionNotAllowed(AllowedExtensionList)))
      == Failure(FailurePrefix + "File type not allowed. Allowed types: .pdf, .doc, .docx, .txt, .jpg, .png")
  {
    AllowedTypesText();
    var text := "File type not allowed. Allowed types: ";
    assert Detail(ExtensionNotAllowed(AllowedExtensionList)) == text + ".pdf, .doc, .docx, .txt, .jpg, .png";
    assert FailurePrefix + (text + ".pdf, .doc, .docx, .txt, .jpg, .png")
        == FailurePrefix + "File type not allowed. Allowed types: .pdf, .doc, .docx, .txt, .jpg, .png";
  }

  /** When the guess gives nothing and the extension is allowed, the fallback
      through the reverse table always yields an allowed MIME type. */
  lemma FallbackMimeIsAllowed(name: string, guess: string -> Option<string>)
    requires PassesExtension(name)
    requires guess(name).None? || guess(name).value == ""
    ensures DetectMime(name, guess).Some? && DetectMime(name, guess).value in AllowedFileTypes
  {
    ReverseTableInverts();
  }

  /** The MIME check runs fourth and rejects exactly when the guess is a
      non-empty MIME type outside the allow-list: it can never fail through
      the fallback. */
  lemma MimeCheck(name: string, size: int, sample: seq<Byte>, guess: string -> Option<string>)
    ensures Validate(name, size, sample, guess).Rejected? && Validate(name, size, sample, guess).reason.MimeNotAllowed?
      <==> PassesNameChecks(name, size) && guess(name).Some? && guess(name).value != "" && guess(name).value !in AllowedFileTypes
  {
    if PassesNameChecks(name, size) {
      if guess(name).None? || guess(name).value == "" {
        FallbackMimeIsAllowed(name, guess);
      } else {
        assert DetectMime(name, guess) == guess(name);
      }
    }
  }

  /** A MIME rejection always reports the guessed type, in its message too. */
  lemma MimeRejectionReportsGuess(name: string, size: int, sample: seq<Byte>, guess: string -> Option<string>)
    ensures Validate(name, size, sample, guess).Rejected? && Validate(name, size, sample, guess).reason.MimeNotAllowed?
      ==> Validate(name, size, sample, guess).reason.detected == guess(name)
    ensures Validate(name, size, sample, guess).Rejected? && Validate(name, size, sample, guess).reason.MimeNotAllowed?
      ==> guess(name).Some? &&
          Raised(Validate(name, size, sample, guess))
            == Failure(FailurePrefix + "File type not allowed. Detected: " + guess(name).value)
  {
    MimeCheck(name, size, sample, guess);
    var v := Validate(name, size, sample, guess);
    if v.Rejected? && v.reason.MimeNotAllowed? {
      assert guess(name).Some? && guess(name).value != "";
      assert DetectMime(name, guess) == guess(name);
      assert v == Rejected(MimeNotAllowed(guess(name)));
      assert Detail(v.reason) == "File type not allowed. Detected: " + guess(name).value;
      assert FailurePrefix + ("File type not allowed. Detected: " + guess(name).value)
          == FailurePrefix + "File type not allowed. Detected: " + guess(name).value;
    }
  }

  /** The content scan runs last: a file that passes the first four checks is
      rejected exactly when a marker occurs, in any letter case, in its sample. */
  lemma ContentCheck(name: string, size: int, sample: seq<Byte>, guess: string -> Option<string>)
    ensures Validate(name, size, sample, guess) == Rejected(SuspiciousContent)
      <==> PassesNameChecks(name, size) && DetectMime(name, guess).Some? && DetectMime(name, guess).value in AllowedFileTypes
           && exists k :: 0 <= k < |SuspiciousPatterns| && Occurs(SuspiciousPatterns[k], BytesLower(sample))
    ensures Validate(name, size, sample, guess) == Rejected(SuspiciousContent) ==>
      Raised(Validate(name, size, sample, guess)) == Failure(FailurePrefix + "File contains suspicious content")
  {
  }

  /** A file is accepted exactly when it passes all five checks. */
  lemma AcceptedExactlyWhenAllPass(name: string, size: int, sample: seq<Byte>, guess: string -> Option<string>)
    ensures Validate(name, size, sample, guess) == Accepted
      <==> size <= 10 * 1024 * 1024 && |name| <= 255
           && StrLower(SplitExt(name).1) in {".pdf", ".doc", ".docx", ".txt", ".jpg", ".png"}
           && (guess(name).None? || guess(name).value == "" || guess(name).value in AllowedFileTypes)
           && !ContainsSuspiciousContent(sample)
  {
    AllowedExtensions();
    MimeCheck(name, size, sample, guess);
  }

  /** Every failure reaches the caller as one message with the same prefix,
      and success as `True`. */
  lemma RaisedShape(outcome: Outcome)
    ensures Raised(outcome).Success? <==> outcome == Accepted
    ensures Raised(outcome).Success? ==> Raised(outcome).value
    ensures Raised(outcome).Failure? ==>
      |Raised(outcome).error| > |FailurePrefix| && Raised(outcome).error[..|FailurePrefix|] == FailurePrefix
  {
  }

  // ---------------------------------------------------------------------
  // The uploaded file as a stream, and validate_file itself

  /** What `read(n)` returns from position `pos`: at most `n` bytes, and none
      from past the end. */
  function Window(content: seq<Byte>, pos: nat, n: nat): (r: seq<Byte>)
    ensures |r| <= n
    ensures forall i :: 0 <= i < |r| ==> pos + i < |content| && r[i] == content[pos + i]
    ensures |r| == n || pos + |r| >= |content|
  {
    if pos >= |content| then [] else content[pos..if pos + n <= |content| then pos + n else |content|]
  }

  /** A read of `n` bytes is the run of the content that starts at the
      position, cut at the end of the content, so bytes beyond the window
      never reach the scan. */
  lemma WindowIsBoundedRun(content: seq<Byte>, more: seq<Byte>, pos: nat, n: nat)
    ensures |Window(content, pos, n)| <= n
    ensures pos + n <= |content| ==> Window(content, pos, n) == content[pos..pos + n]
    ensures pos + n <= |content| ==> Window(content + more, pos, n) == Window(content, pos, n)
    ensures Window(content, pos, n) + Window(content, pos + |Window(content, pos, n)|, |content|) == Window(content, pos, n + |content|)
  {
  }

  /** The object Django hands the view: its name and declared size, and a
      stream over its bytes with a current position. */
  class UploadedFile {
    const name: string
    const size: int
    var content: seq<Byte>
    var pos: nat

    constructor (name: string, size: int, content: seq<Byte>)
      ensures this.name == name && this.size == size && this.content == content && pos == 0
    {
      this.name := name;
      this.size := size;
      this.content := content;
      pos := 0;
    }

    /** `read(n)`: up to `n` bytes from the position, which moves past them. */
    method Read(n: nat) returns (data: seq<Byte>)
      modifies this`pos
      ensures data == Window(content, old(pos), n)
      ensures pos == old(pos) + |data|
    {
      data := Window(content, pos, n);
      pos := pos + |data|;
    }

    /** `seek(offset)`. */
    method Seek(offset: nat)
      modifies this`pos
      ensures pos == offset
    {
      pos := offset;
    }
  }

  /** `validate_file`: returns `True` or the re-raised `ValidationError`. The
      stream is read only when the first three checks pass, and then it is
      left at position 0 whatever the later checks decide. */
  method ValidateFile(uploadedFile: UploadedFile, guess: string -> Option<string>) returns (r: Result<bool, string>)
    modifies uploadedFile`pos
    ensures r == Raised(Validate(uploadedFile.name, uploadedFile.size,
                                 Window(old(uploadedFile.content), old(uploadedFile.pos), SampleSize), guess))
    ensures uploadedFile.content == old(uploadedFile.content)
    ensures uploadedFile.pos == if PassesNameChecks(uploadedFile.name, uploadedFile.size) then 0 else old(uploadedFile.pos)
  {
    ghost var sample := Window(uploadedFile.content, uploadedFile.pos, SampleSize);
    ghost var outcome := Validate(uploadedFile.name, uploadedFile.size, sample, guess);
    if uploadedFile.size > MaxFileSize {
      assert outcome == Rejected(FileTooLarge(MaxFileSize / (1024 * 1024)));
      return Failure(FailurePrefix + Detail(FileTooLarge(MaxFileSize / (1024 * 1024))));
    }
    if |uploadedFile.name| > MaxFilenameLength {
      assert outcome == Rejected(FilenameTooLong(MaxFilenameLength));
      return Failure(FailurePrefix + Detail(FilenameTooLong(MaxFilenameLength)));
    }
    var fileExtension := StrLower(SplitExt(uploadedFile.name).1);
    if fileExtension !in AllowedFileTypes.Values {
      assert outcome == Rejected(ExtensionNotAllowed(AllowedExtensionList));
      return Failure(FailurePrefix + Detail(ExtensionNotAllowed(AllowedExtensionList)));
    }

    var fileContent := uploadedFile.Read(SampleSize);
    uploadedFile.Seek(0);
    assert fileContent == sample;

    var detectedMime := guess(uploadedFile.name);
    if detectedMime.None? || detectedMime.value == "" {
      fileExtension := StrLower(SplitExt(uploadedFile.name).1);
      var extensionToMime := InvertedDictOf(AllowedEntries);
      detectedMime := Get(extensionToMime, fileExtension);
    }

    assert detectedMime == DetectMime(uploadedFile.name, guess);
    if detectedMime.None? || detectedMime.value !in AllowedFileTypes {
      assert outcome == Rejected(MimeNotAllowed(detectedMime));
      return Failure(FailurePrefix + Detail(MimeNotAllowed(detectedMime)));
    }
    if ContainsSuspiciousContent(fileContent) {
      assert outcome == Rejected(SuspiciousContent);
      return Failure(FailurePrefix + Detail(SuspiciousContent));
    }
    assert outcome == Accepted;
    return Success(true);
  }

  /** Two calls of `validate_file` in a row on the same upload give the same
      verdict when the stream starts at position 0, or when the first call
      stops before reading: the second call then scans the same bytes. */
  method ValidateTwice(uploadedFile: UploadedFile, guess: string -> Option<string>)
    returns (first: Result<bool, string>, second: Result<bool, string>)
    requires uploadedFile.pos == 0 || !PassesNameChecks(uploadedFile.name, uploadedFile.size)
    modifies uploadedFile`pos
    ensures first == second
    ensures first == Raised(Validate(uploadedFile.name, uploadedFile.size,
                                     Window(uploadedFile.content, old(uploadedFile.pos), SampleSize), guess))
    ensures uploadedFile.pos == old(uploadedFile.pos)
  {
    first := ValidateFile(uploadedFile, guess);
    second := ValidateFile(uploadedFile, guess);
  }

  // ---------------------------------------------------------------------
  // Worked cases

  /** No marker can start anywhere in `s` where it would fit. */
  lemma NoMarkerStarts(s: seq<Byte>)
    requires forall k, i :: 0 <= k < |SuspiciousPatterns| && 0 <= i <= |s| - |SuspiciousPatterns[k]|
               ==> BytesLower(s)[i] != SuspiciousPatterns[k][0]
    ensures !ContainsSuspiciousContent(s)
  {
    forall k | 0 <= k < |SuspiciousPatterns| ensures !Occurs(SuspiciousPatterns[k], BytesLower(s)) {
      var p := SuspiciousPatterns[k];
      forall i | 0 <= i <= |s| - |p| ensures !OccursAt(p, BytesLower(s), i) {
        assert BytesLower(s)[i..i + |p|][0] == BytesLower(s)[i];
      }
    }
  }

  /** A plain `stem.ext` name passes the extension check exactly when its
      lower-cased extension is one of the six. */
  lemma PlainNameExtensionCheck(stem: string, ext: string)
    requires |stem| > 0 && stem[0] != '.' && '/' !in stem
    requires |ext| > 0 && ext[0] == '.' && '.' !in ext[1..] && '/' !in ext
    ensures PassesExtension(stem + ext) <==> StrLower(ext) in {".pdf", ".doc", ".docx", ".txt", ".jpg", ".png"}
  {
    AllowedExtensions();
    forall i | 0 < i < |ext| ensures ext[i] != '.' && ext[i] != '/' {
      assert ext[i] == ext[1..][i - 1];
    }
    SplitExtOfPlainName(stem, ext);
  }

  /** `CV.PDF` passes: its extension `.PDF` lower-cases to an allowed one;
      so do `resume.pdf`, `a.txt` and `notes.txt`. */
  lemma ListedExtensionsPass()
    ensures PassesExtension("CV.PDF")
    ensures PassesExtension("resume.pdf")
    ensures PassesExtension("a.txt") && PassesExtension("notes.txt")
  {
    assert StrLower(".PDF") == ".pdf" && StrLower(".pdf") == ".pdf" && StrLower(".txt") == ".txt";
    PlainNameExtensionCheck("CV", ".PDF");
    assert "CV" + ".PDF" == "CV.PDF";
    PlainNameExtensionCheck("resume", ".pdf");
    assert "resume" + ".pdf" == "resume.pdf";
    PlainNameExtensionCheck("a", ".txt");
    assert "a" + ".txt" == "a.txt";
    PlainNameExtensionCheck("notes", ".txt");
    assert "notes" + ".txt" == "notes.txt";
  }

  /** `photo.jpeg` (only `.jpg` is listed) and `resume.exe` fail. */
  lemma UnlistedExtensionsFail()
    ensures !PassesExtension("photo.jpeg")
    ensures !PassesExtension("resume.exe")
  {
    assert StrLower(".jpeg") == ".jpeg" && StrLower(".exe") == ".exe";
    PlainNameExtensionCheck("photo", ".jpeg");
    assert "photo" + ".jpeg" == "photo.jpeg";
    PlainNameExtensionCheck("resume", ".exe");
    assert "resume" + ".exe" == "resume.exe";
  }

  /** A name without a '.' has no extension. */
  lemma NoDotFails()
    ensures !PassesExtension("resume")
  {
    AllowedExtensions();
    SplitExtWithoutDot("resume");
  }

  /** A name whose only '.' leads it has no extension either. */
  lemma LeadingDotFails()
    ensures !PassesExtension(".pdf")
  {
    AllowedExtensions();
    assert LastIndexOf(".pdf", '/') == -1;
    assert ".pdf"[0] == '.' && ".pdf"[1] != '.' && ".pdf"[2] != '.' && ".pdf"[3] != '.';
    assert LastIndexOf(".pdf", '.') == 0;
    assert SplitExt(".pdf").1 == "";
  }

  /** A sample shorter than the two `data:` markers, holding no byte that
      starts one of the other three (in any case), is clean. */
  lemma ShortSampleIsClean(s: seq<Byte>)
    requires |s| < 14
    requires forall i :: 0 <= i < |s| ==> BytesLower(s)[i] != 60 && BytesLower(s)[i] != 106 && BytesLower(s)[i] != 118
    ensures !ContainsSuspiciousContent(s)
  {
    assert SuspiciousPatterns[0][0] == 60 && SuspiciousPatterns[1][0] == 106 && SuspiciousPatterns[2][0] == 118;
    assert |SuspiciousPatterns[3]| == 14 && |SuspiciousPatterns[4]| == 29;
    NoMarkerStarts(s);
  }

  lemma PdfSampleIsClean()
    ensures !ContainsSuspiciousContent(AsciiBytes("%PDF-1.4"))
  {
    var s := AsciiBytes("%PDF-1.4");
    forall i | 0 <= i < |s| ensures BytesLower(s)[i] != 60 && BytesLower(s)[i] != 106 && BytesLower(s)[i] != 118 {
      assert s[i] in {37, 80, 68, 70, 45, 49, 46, 52};
    }
    ShortSampleIsClean(s);
  }

  lemma HelloWorldIsClean()
    ensures !ContainsSuspiciousContent(AsciiBytes("hello world"))
  {
    var s := AsciiBytes("hello world");
    forall i | 0 <= i < |s| ensures BytesLower(s)[i] != 60 && BytesLower(s)[i] != 106 && BytesLower(s)[i] != 118 {
      assert s[i] in {104, 101, 108, 111, 32, 119, 114, 100};
    }
    ShortSampleIsClean(s);
  }

  /** `resume.pdf`, guessed as `application/pdf`, with harmless content is accepted. */
  lemma PdfAccepted()
    ensures Validate("resume.pdf", 1024, AsciiBytes("%PDF-1.4"), _ => Some("application/pdf")) == Accepted
  {
    AllowedMimeTypes();
    ListedExtensionsPass();
    PdfSampleIsClean();
  }

  /** The same file is rejected when its first bytes hold `<SCRIPT`, although
      its extension and MIME type are allowed. */
  lemma PdfWithScriptRejected()
    ensures Validate("resume.pdf", 1024, AsciiBytes("<SCRIPT>alert(1)</SCRIPT>"), _ => Some("application/pdf"))
      == Rejected(SuspiciousContent)
  {
    AllowedMimeTypes();
    ListedExtensionsPass();
    UpperCaseScriptIsSuspicious();
  }

  lemma UpperCaseScriptIsSuspicious()
    ensures ContainsSuspiciousContent(AsciiBytes("<SCRIPT>alert(1)</SCRIPT>"))
  {
    var bad := AsciiBytes("<SCRIPT>alert(1)</SCRIPT>");
    assert BytesLower(bad[0..7]) == SuspiciousPatterns[0];
    DetectedInAnyCase(bad, 0, 0);
  }

  /** `a.txt`, guessed as `text/plain`, holding `hello world`, is accepted. */
  lemma TextExample()
    ensures Validate("a.txt", 11, AsciiBytes("hello world"), _ => Some("text/plain")) == Accepted
  {
    AllowedMimeTypes();
    ListedExtensionsPass();
    HelloWorldIsClean();
  }

  /** Only the first 2048 bytes are scanned: 2048 harmless bytes followed by
      `<script>` make a file whose content as a whole is suspicious, yet it
      passes every check. */
  lemma MarkerPastSampleIgnored()
    ensures var content := seq(SampleSize, _ => 97 as Byte) + AsciiBytes("<script>");
      ContainsSuspiciousContent(content)
      && Validate("notes.txt", |content|, Window(content, 0, SampleSize), _ => None) == Accepted
  {
    var head: seq<Byte> := seq(SampleSize, _ => 97 as Byte);
    var content := head + AsciiBytes("<script>");
    assert Window(content, 0, SampleSize) == head;
    assert SuspiciousPatterns[0][0] == 60 && SuspiciousPatterns[1][0] == 106 && SuspiciousPatterns[2][0] == 118;
    assert SuspiciousPatterns[3][0] == 100 && SuspiciousPatterns[4][0] == 100;
    NoMarkerStarts(head);
    assert content[SampleSize..SampleSize + 7] == SuspiciousPatterns[0];
    DetectedVerbatim(content, 0, SampleSize);
    ListedExtensionsPass();
    FallbackMimeIsAllowed("notes.txt", _ => None);
  }

  /** `validate_file` reads from wherever the stream stands but leaves it at 0,
      rather than where it was: a file holding `<script>` whose stream stands
      at 1 passes, and the same file validated again from 0 is rejected. */
  lemma RevalidationFromMidStreamCanDiffer()
    ensures var content := AsciiBytes("<script>");
      Validate("a.txt", |content|, Window(content, 1, SampleSize), _ => None) == Accepted
      && Validate("a.txt", |content|, Window(content, 0, SampleSize), _ => None) == Rejected(SuspiciousContent)
  {
    var content := AsciiBytes("<script>");
    ListedExtensionsPass();
    FallbackMimeIsAllowed("a.txt", _ => None);
    assert Window(content, 0, SampleSize) == content;
    assert Window(content, 1, SampleSize) == content[1..];
    ScriptTagSplit();
  }

  /** `<script>` is suspicious; what follows its first byte is not. */
  lemma ScriptTagSplit()
    ensures ContainsSuspiciousContent(AsciiBytes("<script>"))
    ensures !ContainsSuspiciousContent(AsciiBytes("<script>")[1..])
  {
    var content := AsciiBytes("<script>");
    DetectedVerbatim(content, 0, 0);
    var rest := content[1..];
    forall i | 0 <= i < |rest| ensures BytesLower(rest)[i] != 60 && BytesLower(rest)[i] != 106 && BytesLower(rest)[i] != 118 {
      assert rest[i] in {115, 99, 114, 105, 112, 116, 62};
    }
    ShortSampleIsClean(rest);
  }
}
