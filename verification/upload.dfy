/** Upload validation and storage naming: the Next.js helpers
    (`validateFileType`, `validateFileSize`, `generateUniqueFilename`), the
    Next.js upload handler's ordered checks, and the server's multer
    configuration with its error responses. The clock and the random source
    are parameters. */
module Upload {
  import opened Wrappers
  import opened JsText
  import opened Paths
  import opened Auth

  const DefaultAllowedTypes: seq<string> := ["image/jpeg", "image/png", "image/jpg", "image/webp"]

  /** The default `MAX_FILE_SIZE`, 50 MiB. The server's multer limit,
      `50 * 1024 * 1024`, is the same number. */
  const DefaultMaxSize: nat := 52428800
  /** The setting's default text, `'52428800'`. */
  const DefaultMaxSizeText := Decimal(DefaultMaxSize)

  const NoFileMessage := "No file uploaded"
  const BadTypeMessage := "Invalid file type. Only JPEG, PNG, JPG, and WebP images are allowed."
  const TooLargeMessage := "File size too large. Maximum size is 50MB."

  /** The allowed MIME types: `ALLOWED_FILE_TYPES` split at commas when it is
      set (an empty setting splits into one empty entry), the default list
      otherwise. */
  function AllowedTypes(env: Option<string>): (r: seq<string>)
    ensures env.None? ==> r == DefaultAllowedTypes
    ensures env.Some? ==> JoinWith(r, ',') == env.value
  {
    match env
    case None => DefaultAllowedTypes
    case Some(e) =>
      JoinSplit(e, ',');
      Split(e, ',')
  }

  /** `validateFileType`. */
  function ValidateFileType(mime: string, env: Option<string>): (ok: bool)
    ensures ok <==> mime in AllowedTypes(env)
  {
    mime in AllowedTypes(env)
  }

  /** Without a setting exactly the four image types pass. */
  lemma DefaultTypes(mime: string)
    ensures ValidateFileType(mime, None) <==>
      mime == "image/jpeg" || mime == "image/png" || mime == "image/jpg" || mime == "image/webp"
  {
  }

  /** A setting written as a comma-joined list of comma-free types admits
      exactly the types of that list. */
  lemma ConfiguredTypes(types: seq<string>, mime: string)
    requires |types| >= 1
    requires forall i :: 0 <= i < |types| ==> ',' !in types[i]
    ensures ValidateFileType(mime, Some(JoinWith(types, ','))) <==> mime in types
  {
    SplitJoin(types, ',');
  }

  /** The longest prefix of decimal digits. */
  function DigitPrefix(s: string): (r: string)
    ensures |r| <= |s| && r == s[..|r|]
    ensures forall i :: 0 <= i < |r| ==> IsDigit(r[i])
    ensures |r| < |s| ==> !IsDigit(s[|r|])
  {
    if s == [] || !IsDigit(s[0]) then []
    else
      var rest := DigitPrefix(s[1..]);
      assert [s[0]] + rest == s[..|rest| + 1];
      [s[0]] + rest
  }

  /** `parseInt` of a decimal numeral: leading white space, an optional sign,
      then the digits up to the first other character. `None` is `NaN`. */
  function ParseInt(s: string): (r: Option<int>)
    ensures r.None? <==> DigitPrefix(
      var t := TrimStart(s); if t != [] && (t[0] == '-' || t[0] == '+') then t[1..] else t) == []
  {
    var t := TrimStart(s);
    var negative := t != [] && t[0] == '-';
    var body := if t != [] && (t[0] == '-' || t[0] == '+') then t[1..] else t;
    var digits := DigitPrefix(body);
    if digits == [] then None
    else
      var n: int := ParseDecimal(digits);
      Some(if negative then -n else n)
  }

  /** `parseInt` reads back what `String` writes. */
  lemma ParseIntDecimal(n: nat)
    ensures ParseInt(Decimal(n)) == Some(n)
  {
    var d := Decimal(n);
    assert !IsSpace(d[0]);
    assert TrimStart(d) == d;
    assert DigitPrefix(d) == d;
    DecimalRoundTrip(n);
  }

  /** The size limit: `parseInt(MAX_FILE_SIZE || '52428800')`. */
  function MaxSize(env: Option<string>): (r: Option<int>)
    ensures env.None? || env.value == "" ==> r == Some(DefaultMaxSize)
    ensures env.Some? && env.value != "" ==> r == ParseInt(env.value)
  {
    if env.None? || env.value == "" then
      ParseIntDecimal(DefaultMaxSize);
      ParseInt(DefaultMaxSizeText)
    else ParseInt(env.value)
  }

  /** `validateFileSize`: a comparison with `NaN` is false, so an unreadable
      setting rejects every file. */
  function ValidateFileSize(size: nat, env: Option<string>): (ok: bool)
    ensures ok <==> MaxSize(env).Some? && size <= MaxSize(env).value
  {
    match MaxSize(env)
    case None => false
    case Some(m) => size <= m
  }

  /** Without a setting the limit is 52428800 bytes, inclusive. */
  lemma DefaultSizeLimit(size: nat)
    ensures ValidateFileSize(size, None) <==> size <= DefaultMaxSize
  {
    ParseIntDecimal(DefaultMaxSize);
  }

  // ---------------------------------------------------------------------------
  // Stored file names
  // ---------------------------------------------------------------------------

  /** Characters 2 to 15 of `Math.random().toString(36)`: the digits after
      `0.`, at most thirteen of them. */
  function RandomPart(random36: string): (r: string)
    ensures |r| <= 13
    ensures |random36| >= 15 ==> r == random36[2..15]
  {
    Substring(random36, 2, 15)
  }

  /** `generateUniqueFilename`: `<timestamp>-<random>.<extension>`, where the
      extension is `originalName.split('.').pop()`, the text after the last
      dot. */
  function GenerateUniqueFilename(timestamp: nat, random36: string, originalName: string): (r: string)
    ensures r == Decimal(timestamp) + ['-'] + (RandomPart(random36) + ['.'] + AfterLast(originalName, '.'))
  {
    var parts := Split(originalName, '.');
    var extension := parts[|parts| - 1];
    LastPieceIsAfterLast(originalName, '.');
    assert extension == AfterLast(originalName, '.');
    Decimal(timestamp) + ['-'] + (RandomPart(random36) + ['.'] + extension)
  }

  /** The generated name keeps the original's text after its last dot: all of
      a name without a dot, nothing for a name ending in a dot. */
  lemma GeneratedKeepsExtension(timestamp: nat, random36: string, originalName: string)
    ensures AfterLast(GenerateUniqueFilename(timestamp, random36, originalName), '.') == AfterLast(originalName, '.')
    ensures '.' !in originalName ==> AfterLast(GenerateUniqueFilename(timestamp, random36, originalName), '.') == originalName
    ensures originalName != [] && originalName[|originalName| - 1] == '.' ==>
      AfterLast(GenerateUniqueFilename(timestamp, random36, originalName), '.') == ""
  {
    var name := GenerateUniqueFilename(timestamp, random36, originalName);
    var e := AfterLast(originalName, '.');
    assert AfterLast(name, '.') == e by {
      var head := Decimal(timestamp) + ['-'];
      ConcatAssoc(head, RandomPart(random36) + ['.'], e);
      ConcatAssoc(head, RandomPart(random36), ['.']);
      AfterLastOfJoin(head + RandomPart(random36), '.', e);
    }
    if '.' !in originalName {
      AfterLastAbsent(originalName, '.');
    }
  }

  lemma DigitsHaveNoDash(d: string)
    requires IsDecimalText(d)
    ensures '-' !in d
  {
    forall i | 0 <= i < |d|
      ensures d[i] != '-'
    {
      assert IsDigit(d[i]);
    }
  }

  /** The timestamp is recoverable: the text before the first `-` reads back
      as it. */
  lemma GeneratedStartsWithTimestamp(timestamp: nat, random36: string, originalName: string)
    ensures var pieces := Split(GenerateUniqueFilename(timestamp, random36, originalName), '-');
      IsDecimalText(pieces[0]) && ParseDecimal(pieces[0]) == timestamp
  {
    var d := Decimal(timestamp);
    var rest := RandomPart(random36) + ['.'] + AfterLast(originalName, '.');
    DigitsHaveNoDash(d);
    SplitHead(d, rest, '-');
    DecimalRoundTrip(timestamp);
  }

  predicate IsDecimalText(s: string)
  {
    forall i :: 0 <= i < |s| ==> IsDigit(s[i])
  }

  /** The server's stored name: `<timestamp>-<random>` followed by
      `path.extname` of the original name, the random part being
      `Math.round(Math.random() * 1E9)`. */
  function ServerFilename(timestamp: nat, random: nat, originalName: string): (r: string)
    ensures r != "" && '/' !in r
    ensures Extname(r) == Extname(originalName)
  {
    var stem := Decimal(timestamp) + "-" + Decimal(random);
    var ext := Extname(originalName);
    DecimalHasNoSeparators(timestamp);
    DecimalHasNoSeparators(random);
    ServerStemExtension(stem, ext);
    stem + ext
  }

  /** Decimal digits hold neither a slash nor a dot. */
  lemma DecimalHasNoSeparators(n: nat)
    ensures '/' !in Decimal(n) && '.' !in Decimal(n)
  {
    var d := Decimal(n);
    assert forall i :: 0 <= i < |d| ==> d[i] != '/' && d[i] != '.' by {
      forall i | 0 <= i < |d| ensures d[i] != '/' && d[i] != '.' {
        assert IsDigit(d[i]);
      }
    }
  }

  /** The server's stored name starts with a digit, so it is a plain path
      segment: never `.` or `..`. */
  lemma ServerFilenamePlain(timestamp: nat, random: nat, originalName: string)
    ensures Plain(ServerFilename(timestamp, random, originalName))
  {
    var r := ServerFilename(timestamp, random, originalName);
    var d := Decimal(timestamp);
    assert r == d + "-" + Decimal(random) + Extname(originalName);
    assert r[0] == d[0];
    assert IsDigit(d[0]);
  }

  /** A stem without dots or slashes, followed by an extension, has that
      extension. */
  lemma ServerStemExtension(stem: string, ext: string)
    requires |stem| >= 2 && '/' !in stem && '.' !in stem
    requires '/' !in ext && (ext == [] || (ext[0] == '.' && '.' !in ext[1..]))
    ensures '/' !in stem + ext
    ensures NameExtension(Basename(stem + ext)) == ext
  {
    BasenameOfName(stem + ext);
    if ext == [] {
      assert stem + ext == stem;
      UndottedExtension(stem);
    } else {
      assert stem + ext == stem + ['.'] + ext[1..];
      DottedExtension(stem, ext[1..]);
    }
  }

  /** A name without dots has no extension. */
  lemma UndottedExtension(name: string)
    requires '.' !in name
    ensures NameExtension(name) == []
  {
    AfterLastAbsent(name, '.');
  }

  /** The extension of `stem.e`, for a stem of two or more characters and an
      `e` without dots, is `.e`. */
  lemma DottedExtension(stem: string, e: string)
    requires |stem| >= 2 && '.' !in e
    ensures NameExtension(stem + ['.'] + e) == ['.'] + e
  {
    var b := stem + ['.'] + e;
    AfterLastOfJoin(stem, '.', e);
    assert |b| >= 3;
    assert b != "..";
  }

  // ---------------------------------------------------------------------------
  // Handlers
  // ---------------------------------------------------------------------------

  /** An uploaded file as the handlers see it. */
  datatype FilePart = FilePart(originalName: string, mimeType: string, size: nat)

  /** An upload response: the stored name, the URL handed to the client and
      the path written; or an HTTP status with its error message. */
  datatype UploadReply =
    | Uploaded(filename: string, url: string, written: seq<string>)
    | UploadFailed(status: nat, error: string)

  /** The URL under which a stored file is served. */
  function UploadUrl(userId: string, filename: string): string
  {
    "/uploads/" + userId + "/" + filename
  }

  /** The server's upload route. Authentication runs first; multer then
      applies the type filter, the storage callbacks (whose failure is
      `storageError`) and the 50 MiB limit, and its errors become 400s; a
      request without a file part gets 400 too. The directory is
      `uploads/<userId>` beside the routes directory. */
  function ServerUpload(gate: Gate, file: Option<FilePart>, storageError: Option<string>,
                        routesDir: string, timestamp: nat, random: nat): (r: UploadReply)
    ensures gate.Reject401? ==> r == UploadFailed(401, "Authentication required")
    ensures gate.Proceed? && file.None? ==> r == UploadFailed(400, NoFileMessage)
    ensures gate.Proceed? && file.Some? && !(file.value.mimeType in DefaultAllowedTypes) ==>
      r == UploadFailed(400, BadTypeMessage)
    ensures gate.Proceed? && file.Some? && file.value.mimeType in DefaultAllowedTypes && storageError.Some? ==>
      r == UploadFailed(400, if storageError.value == "" then "Upload failed" else storageError.value)
    ensures (gate.Proceed? && file.Some? && file.value.mimeType in DefaultAllowedTypes && storageError.None?
             && file.value.size > DefaultMaxSize) ==> r == UploadFailed(400, TooLargeMessage)
    ensures r.Uploaded? <==>
      gate.Proceed? && file.Some? && file.value.mimeType in DefaultAllowedTypes
      && storageError.None? && file.value.size <= DefaultMaxSize
    ensures r.UploadFailed? ==> r.status in {400, 401}
    ensures r.Uploaded? ==>
      && r.filename == ServerFilename(timestamp, random, file.value.originalName)
      && r.url == UploadUrl(gate.user.userId, r.filename)
      && r.written == PathJoin([Render(PathJoin([routesDir, "..", "uploads", gate.user.userId])), r.filename])
  {
    match gate
    case Reject401 => UploadFailed(401, "Authentication required")
    case Proceed(user) =>
      match file
      case None => UploadFailed(400, NoFileMessage)
      case Some(f) =>
        if !(f.mimeType in DefaultAllowedTypes) then UploadFailed(400, BadTypeMessage)
        else if storageError.Some? then
          UploadFailed(400, if storageError.value == "" then "Upload failed" else storageError.value)
        else if f.size > DefaultMaxSize then UploadFailed(400, TooLargeMessage)
        else
          var name := ServerFilename(timestamp, random, f.originalName);
          var dir := PathJoin([routesDir, "..", "uploads", user.userId]);
          Uploaded(name, UploadUrl(user.userId, name), PathJoin([Render(dir), name]))
  }

  /** The server checks the type before the size: a file failing both gets
      the type error. */
  lemma ServerTypeBeforeSize(user: Payload, f: FilePart, storageError: Option<string>,
                             routesDir: string, timestamp: nat, random: nat)
    requires !(f.mimeType in DefaultAllowedTypes) && f.size > DefaultMaxSize
    ensures ServerUpload(Proceed(user), Some(f), storageError, routesDir, timestamp, random)
      == UploadFailed(400, BadTypeMessage)
  {
  }

  /** The `file` entry of the Next.js form data: absent, a text field, or a
      file. */
  datatype FormEntry = NoEntry | TextEntry(text: string) | FileEntry(file: FilePart)

  /** The Next.js upload route. `form` is `None` when the body is not form
      data; `writeOk` is whether creating the directory and writing the file
      succeed. A stored name ending in a slash (an original name whose text
      after the last dot ends in one) cannot be written either, since
      `path.join` keeps the slash. A text field is not a file: an empty one counts as missing,
      any other has no MIME type and fails the type check. */
  function NextUpload(user: Option<Payload>, form: Option<FormEntry>, typesEnv: Option<string>,
                      sizeEnv: Option<string>, cwd: string, timestamp: nat, random36: string,
                      writeOk: bool): (r: UploadReply)
    ensures user.None? ==> r == UploadFailed(401, "Unauthorized")
    ensures user.Some? && form.None? ==> r == UploadFailed(500, "Failed to upload file")
    ensures user.Some? && (form == Some(NoEntry) || form == Some(TextEntry(""))) ==>
      r == UploadFailed(400, NoFileMessage)
    ensures r.Uploaded? <==>
      && user.Some? && form.Some? && form.value.FileEntry?
      && ValidateFileType(form.value.file.mimeType, typesEnv)
      && ValidateFileSize(form.value.file.size, sizeEnv)
      && writeOk
      && !EndsInSlash(GenerateUniqueFilename(timestamp, random36, form.value.file.originalName))
    ensures (user.Some? && form.Some? && form.value.FileEntry?
             && ValidateFileType(form.value.file.mimeType, typesEnv)
             && ValidateFileSize(form.value.file.size, sizeEnv)
             && EndsInSlash(GenerateUniqueFilename(timestamp, random36, form.value.file.originalName))) ==>
      r == UploadFailed(500, "Failed to upload file")
    ensures r.Uploaded? ==>
      && r.filename == GenerateUniqueFilename(timestamp, random36, form.value.file.originalName)
      && r.url == UploadUrl(user.value.userId, r.filename)
      && r.written == PathJoin([Render(PathJoin([cwd, "public", "uploads", user.value.userId])), r.filename])
  {
    match user
    case None => UploadFailed(401, "Unauthorized")
    case Some(u) =>
      match form
      case None => UploadFailed(500, "Failed to upload file")
      case Some(NoEntry) => UploadFailed(400, NoFileMessage)
      case Some(TextEntry(t)) =>
        if t == "" then UploadFailed(400, NoFileMessage) else UploadFailed(400, BadTypeMessage)
      case Some(FileEntry(f)) =>
        if !ValidateFileType(f.mimeType, typesEnv) then UploadFailed(400, BadTypeMessage)
        else if !ValidateFileSize(f.size, sizeEnv) then UploadFailed(400, TooLargeMessage)
        else if !writeOk then UploadFailed(500, "Failed to upload file")
        else
          var name := GenerateUniqueFilename(timestamp, random36, f.originalName);
          if EndsInSlash(name) then UploadFailed(500, "Failed to upload file")
          else
            var dir := PathJoin([cwd, "public", "uploads", u.userId]);
            Uploaded(name, UploadUrl(u.userId, name), PathJoin([Render(dir), name]))
  }

  /** The Next.js checks run in order: 401, missing file, type, size; the
      first that fails decides, and nothing is written. */
  lemma NextCheckOrder(user: Option<Payload>, f: FilePart, typesEnv: Option<string>,
                       sizeEnv: Option<string>, cwd: string, timestamp: nat, random36: string,
                       writeOk: bool)
    ensures var r := NextUpload(user, Some(FileEntry(f)), typesEnv, sizeEnv, cwd, timestamp, random36, writeOk);
      && (user.Some? && !ValidateFileType(f.mimeType, typesEnv) ==> r == UploadFailed(400, BadTypeMessage))
      && (user.Some? && ValidateFileType(f.mimeType, typesEnv) && !ValidateFileSize(f.size, sizeEnv) ==>
            r == UploadFailed(400, TooLargeMessage))
      && (user.Some? && ValidateFileType(f.mimeType, typesEnv) && ValidateFileSize(f.size, sizeEnv) && !writeOk ==>
            r == UploadFailed(500, "Failed to upload file"))
  {
  }
}
