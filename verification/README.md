# Medical report analysis: a Dafny model of the request-handling core

The application lets a signed-in user upload a photo of a medical report.
It reads the text with a recognition engine, asks an AI model for an
analysis, and stores the analysis as a report owned by that user. The user
can then list, open and delete their own reports. There are two copies of
the backend: an Express server (`backend/`) and a Next.js app (`src/`).

This project models the decision logic of both copies as pure Dafny
functions:

- **Authentication** (`Auth`): how the token is taken from a request and
  the 401 gate.
- **Text post-processing** (`Ocr`): the cleaner for recognised text, the
  medical-keyword heuristic, and the result shape of text extraction.
- **AI-reply parsing** (`ReplyParser`): the greedy `{ … }` span, the
  server's field coercion, and the fallback records.
- **The report schema** (`Schema`): how a saved analysis is cast and
  validated, including the severity enum and its default.
- **The owner-scoped report store** (`ReportStore`): list (newest first, at
  most 50), get by id and delete by id, plus the route handlers around them.
- **Uploads** (`Upload`): the type and size checks, the stored file name,
  the URL, and the written path.
- **The two analyze handlers** (`Analyze`): how each request ends as 400,
  401, 404, 500 or a saved report.
- **Support modules**: JavaScript's string operations (`JsText`), decoded
  JSON values and truthiness (`Json`), POSIX `path.join`/`basename`/`extname`
  (`Paths`), and sequence filtering (`Seqs`, `Wrappers`).

Nothing outside the handlers is modelled. The database connection, the
files on disk, the recognition engine, `JSON.parse`, the AI call, the JWT
verifier, the clock and the random source are all parameters.

Where the code does something other than what it evidently intends, the model follows
the code:

- **A span that does not decode.** On the server this is a 500 and nothing
  is saved. The catch block reads `jsonMatch`, which is declared inside the
  `try` block, so the catch itself throws. Its "could not be parsed
  properly" record is never built (`ReplyParser.ParseServer`,
  `Analyze.ServerDecodeFailureIs500`).
- **An empty AI reply.** It has no span, so its fallback summary is empty.
  The schema rejects an empty summary, so the server answers 500
  (`Analyze.ServerEmptyReplyIs500`).
- **A severity outside `low`/`medium`/`high`.** The server normaliser keeps
  it, the schema rejects it, and the answer is 500
  (`Analyze.ServerSeverityConflictIs500`).
- **Bad body values.** On both copies, an `imageUrl` that is neither a
  string nor `null` makes the `substring` call throw before the 400 check,
  and so does a body that is `null` (`Analyze.ServerAnalyze`,
  `Analyze.NextAnalyze`). A title that is not a string makes `trim` throw
  (`Analyze.SaveDocument`). All of these end in 500.
- **The Next.js image read.** It is not confined to the caller's folder:
  any signed-in caller can have another user's upload analysed
  (`Analyze.NextReadsAnyUsersUpload`).

## Model

| member | source | states |
|---|---|---|
| Auth.TokenFromRequest | backend/lib/auth.js:17-25 | A header starting with `Bearer ` yields exactly the text after the prefix, and the cookie is ignored; otherwise the token is the `auth-token` cookie when present and non-empty, and there is none otherwise |
| Auth.BearerRoundTrip | src/lib/auth.ts:24-31 | Header `Bearer <t>` yields `t`, even when `t` is empty, whatever the cookie holds |
| Auth.HeaderWithoutPrefixFallsThrough | backend/lib/auth.js:19 | The prefix test is exact: a header that does not start with the seven characters `Bearer ` leaves the decision to the cookie |
| Auth.UserFromRequest | backend/lib/auth.js:27-32 | No token, or an empty token, is no user; otherwise the user is what the (abstract, never-throwing) verifier answers |
| Auth.NoTokenIgnoresVerifier | src/lib/auth.ts:34-39 | Without a usable token the outcome is no user, and the verifier plays no part |
| Auth.EmptyBearerIsAnonymous | backend/lib/auth.js:19-29 | A header of just `Bearer ` gives no user, even next to a valid cookie |
| Auth.AuthMiddleware | backend/lib/auth.js:34-41 | 401 exactly when there is no user; otherwise the handler runs with the verified payload |
| Ocr.ExtractTextFromImage | backend/lib/ocr.js:3-40 | Never fails outright: success exactly when the engine recognised text, with the text trimmed and its confidence; on an engine failure, empty text, confidence 0 and the error message |
| Ocr.CollapseSpaces | backend/lib/ocr.js:45 | Every run of white space becomes one plain space: the result is single-spaced, no longer, and made of the input's characters or spaces |
| Ocr.BlankDisallowed | backend/lib/ocr.js:47 | Same length; every character is an allowed one or white space |
| Ocr.CleanMedicalText | backend/lib/ocr.js:42-52 | Cleaning never makes the text longer |
| Ocr.CleanOutputIsClean | backend/lib/ocr.js:45-51 | The cleaned text holds only ASCII word characters, `- . , : ; / ( ) %` and plain spaces; it has no leading or trailing space and no two adjacent spaces |
| Ocr.CollapseKeepsVisible | backend/lib/ocr.js:45 | Collapsing white space keeps every non-white-space character, in order |
| Ocr.BlankKeepsAllowed | backend/lib/ocr.js:47 | Blanking keeps every allowed character, in order |
| Ocr.CollapseKeepsAllowed | backend/lib/ocr.js:49 | The second collapse keeps every allowed character, in order |
| Ocr.TrimKeepsAllowed | backend/lib/ocr.js:51 | Trimming keeps every allowed character, in order |
| Ocr.DropBlanksKeepsAllowed | backend/lib/ocr.js:45-51 | In text made of allowed characters and spaces, dropping the spaces leaves exactly the allowed characters |
| Ocr.CleanKeepsAllowedInOrder | backend/lib/ocr.js:43-51 | Removing the spaces from the cleaned text gives exactly the input's allowed characters, in their original order |
| Ocr.CollapseFixesSingleSpaced | backend/lib/ocr.js:45 | Collapsing text that is already single-spaced changes nothing |
| Ocr.CleanFixesCleanText | backend/lib/ocr.js:43-51 | Text already in the cleaned shape is left unchanged by cleaning |
| Ocr.CleanIdempotent | backend/lib/ocr.js:42-52 | Cleaning twice is cleaning once |
| Ocr.CountAtLeastOne | backend/lib/ocr.js:63-65 | At least one keyword is counted iff some keyword occurs in the text |
| Ocr.CountAtLeastTwo | backend/lib/ocr.js:63-68 | The count reaches two iff two keywords at different list positions occur |
| Ocr.ValidateIffTwoKeywords | backend/lib/ocr.js:54-69 | The heuristic holds iff two different keywords of the 26-word list occur in the lower-cased text |
| Ocr.AbnormalAlonePasses | backend/lib/ocr.js:55-68 | Any text containing `abnormal` passes, because it also contains `normal` |
| Ocr.TwoKeywordsValidate | backend/lib/ocr.js:63-68 | Any two distinct listed keywords in the lower-cased text are enough to pass |
| Ocr.ValidateIgnoresCase | backend/lib/ocr.js:62 | Only the lower-cased text matters: lower-casing first does not change the verdict |
| Ocr.CountMonotone | backend/lib/ocr.js:63-65 | Appending text never lowers the keyword count |
| Ocr.ValidateAppend | backend/lib/ocr.js:62-68 | Appending text never turns a pass into a failure |
| JsText.TrimStart | backend/lib/ocr.js:15 | The longest suffix that does not start with white space; what it drops is all white space |
| JsText.TrimEnd | backend/lib/ocr.js:15 | The longest prefix that does not end with white space; what it drops is all white space |
| JsText.Trim | backend/lib/ocr.js:15 | A contiguous slice of the input that neither starts nor ends with white space |
| JsText.TrimParts | backend/lib/ocr.js:51 | The input is white space, then the trimmed text, then white space |
| JsText.TrimNoop | backend/models/Report.js:34-38 | Text that starts and ends with a visible character is its own trim |
| JsText.TrimIdempotent | backend/routes/analyze.js:171 | Trimming twice (the handler's `trim`, then the schema's) is trimming once |
| JsText.Substring | backend/routes/analyze.js:134 | `substring(start, end)` clamps both bounds: for `0 <= start <= end` it is the clamped slice, and it is never longer than the input or the span |
| JsText.Contains | backend/lib/ocr.js:64 | `includes` holds iff the keyword occurs at some index |
| JsText.ContainsAppend | backend/lib/ocr.js:64 | Appending text never removes an occurrence |
| JsText.ToLower | backend/lib/ocr.js:62 | Same length; no capital `A`-`Z` is left; each capital becomes the letter 32 code points above it, and every other character stays where it was |
| JsText.ToLowerIdempotent | backend/lib/ocr.js:62 | Lower-casing twice is lower-casing once |
| JsText.Split | src/lib/utils.ts:37 | At least one piece, and no piece contains the separator |
| JsText.JoinSplit | src/lib/utils.ts:19 | Joining the pieces of a split gives the original text back |
| JsText.SplitJoin | src/lib/utils.ts:19 | Splitting a join of separator-free pieces gives the pieces back |
| JsText.AfterLast | src/lib/utils.ts:37 | The separator-free suffix after the last separator, or all of the text when there is none |
| JsText.LastPieceIsAfterLast | src/lib/utils.ts:37 | The last piece of `split('.')` (what `pop()` returns) is the text after the last dot |
| JsText.AfterLastOfJoin | src/lib/utils.ts:38 | After the last separator of `a.b`, where `b` has none, comes `b` |
| JsText.Decimal | src/lib/utils.ts:35 | The rendering of a timestamp is a non-empty run of decimal digits |
| JsText.DecimalRoundTrip | src/lib/utils.ts:38 | The rendering reads back as the same number |
| Seqs.FilterConcat | backend/lib/ocr.js:45-51 | Filtering distributes over concatenation |
| Seqs.FilterMembers | backend/routes/reports.js:12 | Everything a filter keeps satisfies the predicate and comes from the input |
| Json.Get | backend/routes/analyze.js:105-127 | A property read finds a value exactly when the value is an object with that key |
| ReplyParser.FirstIndex | backend/routes/analyze.js:102 | The position of the first occurrence, with no occurrence before it |
| ReplyParser.LastIndex | backend/routes/analyze.js:102 | The position of the last occurrence, with no occurrence after it |
| ReplyParser.JsonSpan | backend/routes/analyze.js:102 | A span exists iff some `}` comes after some `{`; it starts with `{` and ends with `}`, with no `{` before it and no `}` after it in the reply |
| ReplyParser.OrDefault | backend/routes/analyze.js:110-111 | A truthy value is kept unchanged; anything else becomes the default string |
| ReplyParser.ListOr | backend/routes/analyze.js:112-126 | An array is kept as-is, a string becomes a one-element list, and anything else becomes the placeholder list |
| ReplyParser.NormaliseServer | backend/routes/analyze.js:109-128 | The normalised document always has the six keys, truthy scalar fields and array list fields |
| ReplyParser.NormaliseFixesNormalShape | backend/routes/analyze.js:109-128 | A document already in that shape is left unchanged |
| ReplyParser.NormaliseIdempotent | backend/routes/analyze.js:109-128 | Normalising twice is normalising once |
| ReplyParser.NormaliseFields | backend/routes/analyze.js:110-111 | Truthy summary, reportType and severity values are kept unchanged; otherwise they become `Medical report analyzed`, `Medical Report` and `medium`; the severity is not checked |
| ReplyParser.NormaliseWrapsString | backend/routes/analyze.js:114-125 | A bare string in any list field becomes a one-element list |
| ReplyParser.NormalisePlaceholders | backend/routes/analyze.js:112-126 | A list field that is absent, or present but neither an array nor a string, becomes `["Key findings processed"]`, `["Consult with healthcare professional"]` or `[]` |
| ReplyParser.Fallback | backend/routes/analyze.js:133-140 | The fallback record has exactly the six analysis keys |
| ReplyParser.FallbackValidates | backend/routes/analyze.js:131-141 | A fallback record passes the schema iff its summary is non-empty, and it then stores the summary, the given findings, the fixed recommendation, no medicines and `medium` severity |
| ReplyParser.ParseServer | backend/routes/analyze.js:102-154 | No span gives the fallback with the reply's first 500 characters; a span that does not decode, or decodes to `null`, throws (the catch-block fallback is unreachable); otherwise the decoded value normalised |
| ReplyParser.ServerNoSpanFallback | backend/routes/analyze.js:131-141 | Without a span the summary is the first 500 characters and the findings are `["Analysis provided as text"]`; the record validates iff the reply is non-empty |
| ReplyParser.ServerParsedShape | backend/routes/analyze.js:102-141 | Every parsed document is in normalised shape, unless it is the fallback of an empty reply |
| ReplyParser.ServerSeverityConflict | backend/routes/analyze.js:127 | A truthy severity outside the enum survives normalisation unchanged and then fails schema validation |
| ReplyParser.ServerWrapsBareFindings | backend/routes/analyze.js:112-127 | A bare-string `keyFindings` next to a valid severity casts to an analysis whose findings are that one string, with the severity kept |
| ReplyParser.ParseNext | src/app/api/analyze/route.ts:96-124 | A decoded span is the analysis as it is, with no coercion; no span and a failed decode give the same fallback, whose summary is the whole reply |
| ReplyParser.NextFallbackValidates | src/app/api/analyze/route.ts:103-124 | The Next.js fallback of a non-empty reply (a reply with a span is never empty) validates, with the untruncated reply as its summary and `medium` severity |
| Schema.ParseSeverity | backend/models/Report.js:21-25 | Only `low`, `medium` and `high` pass the enum check, each as the severity of that name |
| Schema.SeverityRoundTrip | src/models/Report.ts:39-43 | Every severity passes the enum check as its own name |
| Schema.CastString | backend/models/Report.js:4-7 | A string is kept as it is; arrays and objects cannot be cast to a string. `null` is also a cast failure here, although Mongoose keeps it (see Left out) |
| Schema.RequiredString | backend/models/Report.js:17-20 | A success is a non-empty cast of the value; an absent, `null` or empty value fails; a present value that casts to a non-empty string gives that string |
| Schema.CastAll | backend/models/Report.js:8-16 | Casting a list succeeds iff every element casts, and keeps the elements in order |
| Schema.StringList | backend/models/Report.js:8-16 | An absent list is empty, an array is cast element by element, and a single string becomes a one-element list |
| Schema.SeverityPath | backend/models/Report.js:21-25 | An absent severity defaults to `medium`; a present one must cast to one of the enum names, and one that does gives that severity |
| Schema.CastAnalysis | backend/models/Report.js:3-26 | An analysis document validates iff it is an object whose summary and reportType are present and non-empty, whose lists cast and whose severity is in the enum or absent; the stored analysis is those cast values |
| Schema.AnalysisDocument | src/models/Report.ts:3-10 | A stored analysis serialises to an object with exactly the six analysis keys |
| Schema.CastAllStrings | src/models/Report.ts:26-34 | A list of strings casts back to itself |
| Schema.AnalysisDocumentRoundTrip | src/models/Report.ts:21-44 | A valid analysis survives serialisation and re-validation unchanged |
| Schema.CastOfFields | backend/models/Report.js:3-26 | A document whose six fields carry an analysis's values validates to that analysis |
| Schema.NewReport | backend/models/Report.js:28-49 | Saving succeeds iff the trimmed title is non-empty, the image URL is non-empty and the analysis validates; the stored report has the given owner, the trimmed title, the unchanged URL, the cast analysis, and both timestamps set to the save time |
| ReportStore.AppendFreshId | backend/models/Report.js:28-49 | Adding a report with a fresh id keeps report ids unique |
| ReportStore.Owned | backend/routes/reports.js:12 | The caller's reports are never more than the whole store |
| ReportStore.OwnedMembers | backend/routes/reports.js:12 | A report is among the caller's iff it is stored with the caller's user id |
| ReportStore.Insert | backend/routes/reports.js:13 | Insertion adds exactly the new report (the same multiset plus it) |
| ReportStore.InsertSorted | backend/routes/reports.js:13 | Inserting into a newest-first sequence keeps it newest first |
| ReportStore.SortNewestFirst | backend/routes/reports.js:13 | The result is ordered by `createdAt`, newest first, and is a permutation of the input |
| ReportStore.TakeNewest | backend/routes/reports.js:13-14 | The first `n` of a newest-first sequence stay newest first, and every report left out is no newer than any kept one |
| ReportStore.ListReports | backend/routes/reports.js:12-14 | The list holds only the caller's reports, newest first, `min(50, count)` of them, each appearing no more often than among the caller's reports; any of the caller's reports left out is no newer than every listed one |
| ReportStore.SameMultiset | backend/routes/reports.js:13 | A permutation has the same length and the same members |
| ReportStore.GetReport | backend/routes/reports.js:35-38 | A report is found iff one matches both the id and the caller; the found report is stored and matches both |
| ReportStore.OthersReportsAreNotFound | backend/routes/reports.js:35-45 | Another owner's report is not found, exactly like a missing id |
| ReportStore.GetThroughOwned | backend/routes/reports.js:35-38 | Looking up by id sees only the caller's reports |
| ReportStore.ReadsSeeOnlyOwnReports | backend/routes/reports.js:12-38 | What the caller can list or get depends only on the caller's own reports |
| ReportStore.FindIndex | backend/routes/reports.js:66-69 | The position of the first report matching id and owner, with no match before it; none means no report matches |
| ReportStore.DeleteReport | backend/routes/reports.js:66-69 | A report is removed iff get would find it; it is exactly that report, taken out at its position; with no match the store is unchanged |
| ReportStore.GetIsFirstMatch | backend/routes/reports.js:35-38 | Get returns the report at the first matching position |
| ReportStore.Without | backend/routes/reports.js:66-69 | Taking out the matches never makes the store longer |
| ReportStore.WithoutMembers | backend/routes/reports.js:66-69 | A report survives iff it was stored and does not match the id and the caller |
| ReportStore.WithoutNoMatch | backend/routes/reports.js:71-76 | With no match, nothing is taken out |
| ReportStore.RemoveFirstIsWithout | backend/routes/reports.js:66-69 | With unique ids, removing the first match removes every match |
| ReportStore.DeleteIsWithout | backend/routes/reports.js:66-69 | With unique ids, delete leaves exactly the reports that do not match the id and the caller |
| ReportStore.DeleteFrame | backend/routes/reports.js:66-69 | A report survives a delete iff it does not match the id and the caller: every other report is unchanged |
| ReportStore.DeleteKeepsUniqueIds | backend/routes/reports.js:66-69 | Delete keeps report ids unique |
| ReportStore.RemoveAtKeepsUniqueIds | backend/routes/reports.js:66-69 | Removing one position keeps ids unique |
| ReportStore.DeletedIsGone | backend/routes/reports.js:35-69 | After a delete, the same caller's get for that id finds nothing (404) |
| ReportStore.ServerDeleteThenGet | backend/routes/reports.js:31-90 | A report the server gets before a successful delete is a 404 for the same caller after it |
| ReportStore.ServerList | backend/routes/reports.js:8-28 | 401 without a user, 500 when the database fails, otherwise the caller's list |
| ReportStore.ServerGet | backend/routes/reports.js:31-59 | 401 without a user, 500 on a database failure; otherwise the caller's report with that id when there is one, and 404 exactly when there is none |
| ReportStore.ServerDelete | backend/routes/reports.js:62-90 | Success iff there is a user, the database works and the caller owns a report with that id; a missing or another user's report is a 404; on success the message is `Report deleted successfully` and the store is the delete's result; every failure (401, 404, 500) leaves the store unchanged |
| ReportStore.NextList | src/app/api/reports/route.ts:6-35 | 401 without a user before the store is touched, 500 on a database failure, otherwise the caller's list |
| ReportStore.NextDelete | src/app/api/reports/route.ts:37-83 | 401 first, then 400 for a missing or empty `id`, both before the store is touched; then 500 on a database failure and 404 when the caller owns no report with that id; success iff the caller owns that id, with the deleted message; every failure leaves the store unchanged |
| Paths.Segments | backend/routes/analyze.js:41 | The pieces of a path are non-empty and slash-free |
| Paths.ResolveOntoAppend | backend/routes/analyze.js:41 | Normalising in two steps is normalising the concatenation |
| Paths.ResolveOntoPlain | backend/routes/analyze.js:41 | Plain segments are appended unchanged |
| Paths.ResolveOntoMakesPlain | backend/routes/analyze.js:41 | Normalisation leaves only plain segments |
| Paths.ResolveResolved | backend/routes/analyze.js:41 | Normalising an already-normalised prefix again changes nothing |
| Paths.SegmentsConcat | src/app/api/analyze/route.ts:47 | A slash between two texts separates their segments |
| Paths.SegmentsOfName | backend/routes/upload.js:28 | A non-empty slash-free name is one segment |
| Paths.SegmentsOfRender | src/app/api/upload/route.ts:49 | Printing a normalised path and splitting it again gives it back |
| Paths.JoinThenJoin | src/app/api/upload/route.ts:42-49 | Joining a name onto the printed join of some parts is joining the parts and the name at once |
| Paths.JoinName | backend/routes/analyze.js:41 | Joining one more slash-free name is one normalisation step; an empty name changes nothing |
| Paths.JoinPlain | backend/routes/upload.js:11 | Joining a plain name appends it as one segment |
| Paths.JoinTwoNames | backend/routes/analyze.js:41 | A plain directory and then a slash-free name: the name is appended, `.` and the empty name stay in the directory, `..` leaves it |
| Paths.SegmentsOfRooted | src/app/api/upload/route.ts:56 | The URL `/dir/rest` splits into `dir` and the segments of `rest` |
| Paths.JoinRootedUrl | src/app/api/analyze/route.ts:47 | Joining a root, `public` and the URL `/uploads/<user>/<name>` reaches `<root>/public/uploads/<user>/<name>` |
| Paths.StripTrailingSlashes | backend/routes/analyze.js:40 | Drops only slashes, and only from the end, leaving no trailing slash |
| Paths.Basename | backend/routes/analyze.js:40 | The basename contains no slash |
| Paths.BasenameOfName | backend/routes/analyze.js:40 | A slash-free name is its own basename |
| Paths.BasenameOfJoin | backend/routes/analyze.js:40 | The basename of `dir/name` is `name` |
| Paths.NameExtension | backend/routes/upload.js:27 | The extension is a suffix starting at the last dot; a name with no dot, `..`, or a single leading dot has none |
| Paths.Extname | backend/routes/upload.js:27 | `extname` is the extension of the basename and contains no slash |
| Upload.AllowedTypes | src/lib/utils.ts:19-24 | Without a setting, the four image types; with one, a list whose comma-join is the setting |
| Upload.ValidateFileType | src/lib/utils.ts:18-27 | A type passes iff it is in the allowed list |
| Upload.DefaultTypes | src/lib/utils.ts:19-24 | Without a setting, exactly `image/jpeg`, `image/png`, `image/jpg` and `image/webp` pass |
| Upload.ConfiguredTypes | src/lib/utils.ts:19 | A setting written as a comma-joined list of comma-free types admits exactly those types |
| Upload.DigitPrefix | src/lib/utils.ts:30 | The longest prefix of decimal digits |
| Upload.ParseInt | src/lib/utils.ts:30 | `parseInt` is `NaN` iff no digit follows the leading white space and optional sign |
| Upload.ParseIntDecimal | src/lib/utils.ts:30 | `parseInt` reads a rendered number back as itself |
| Upload.MaxSize | src/lib/utils.ts:30 | An absent or empty setting means `52428800`; otherwise the setting as parsed |
| Upload.ValidateFileSize | src/lib/utils.ts:29-32 | A size passes iff the limit parses and the size is at most the limit; an unreadable setting rejects every file |
| Upload.DefaultSizeLimit | src/lib/utils.ts:29-32 | Without a setting a file passes iff it is at most 52428800 bytes, that size included |
| Upload.RandomPart | src/lib/utils.ts:36 | The random part is at most 13 characters: characters 2 to 14 of the base-36 text |
| Upload.GenerateUniqueFilename | src/lib/utils.ts:34-39 | The name is `<timestamp>-<random>.<ext>`, where `ext` is the text after the original name's last dot |
| Upload.GeneratedKeepsExtension | src/lib/utils.ts:37 | The generated name keeps the original's text after its last dot: a name with no dot keeps all of itself, and a name ending in a dot keeps nothing |
| Upload.DigitsHaveNoDash | src/lib/utils.ts:38 | A decimal rendering holds no dash |
| Upload.GeneratedStartsWithTimestamp | src/lib/utils.ts:38 | The text before the first dash reads back as the timestamp |
| Upload.ServerFilename | backend/routes/upload.js:25-29 | The stored name is non-empty and slash-free and has the original name's extension |
| Upload.DecimalHasNoSeparators | backend/routes/upload.js:26 | The unique suffix holds no slash and no dot |
| Upload.ServerFilenamePlain | backend/routes/upload.js:25-29 | The stored name is a plain path segment, never `.` or `..` |
| Upload.ServerStemExtension | backend/routes/upload.js:27-28 | A stem with no dot or slash, followed by an extension, has exactly that extension |
| Upload.UndottedExtension | backend/routes/upload.js:27 | A name with no dot has no extension |
| Upload.DottedExtension | backend/routes/upload.js:27 | A stem of two or more characters with no dot in the extension: the extension is the dot and what follows |
| Upload.ServerUpload | backend/routes/upload.js:9-100 | 401 first; no file is a 400; a type outside the four images is a 400 with the type message; a storage error is a 400 with its message or `Upload failed`; a file over 50 MiB is a 400 with the size message; success exactly when all of these pass, with URL `/uploads/<user>/<name>` and the file written in the caller's folder |
| Upload.ServerTypeBeforeSize | backend/routes/upload.js:33-50 | A file that fails both checks gets the type error |
| Upload.NextUpload | src/app/api/upload/route.ts:8-77 | 401 first; a body that is not form data is a 500; a missing file is a 400; then the type and size checks; a failed write, including a stored name ending in a slash, is a 500; success exactly when every check passes, with URL `/uploads/<user>/<name>` and the file written under `public/uploads/<user>` |
| Upload.NextCheckOrder | src/app/api/upload/route.ts:28-54 | The checks run in order (type, size, write) and the first that fails decides the answer |
| Analyze.UrlOf | backend/routes/analyze.js:20-29 | A body that passes the field checks has a non-empty string URL |
| Analyze.Persist | backend/routes/analyze.js:169-178 | The save succeeds iff the schema accepts the report and the write succeeds; the store then gains exactly that report; a failure is a 500 and leaves the store unchanged |
| Analyze.SaveDocument | backend/routes/analyze.js:169-200 | A title that is not a string is a 500; otherwise the saved report has the caller's id, the trimmed title, the unchanged URL, the cast analysis and the new id, and is appended to the store |
| Analyze.ServerAfterRead | backend/routes/analyze.js:86-200 | A failed AI call or a parse that throws is a 500 with nothing saved; otherwise the parsed document goes to the save |
| Analyze.ServerAnalyze | backend/routes/analyze.js:11-200 | 401 without a user; a `null` body or an `imageUrl` whose `substring` throws is a 500; missing fields are a 400 before the database, the file or the AI are used, and a 400 means fields were missing; a disconnected database after the field checks is a 500; 404 exactly when the file is not in the caller's folder; every error leaves the store unchanged; a save means the image was read, and past the read the outcome is the AI-reply pipeline |
| Analyze.ServerSavedReport | backend/routes/analyze.js:169-178 | A saved report has the caller's user id, the unchanged URL and the trimmed title, is valid, and is appended to the store |
| Analyze.ServerReadConfined | backend/routes/analyze.js:40-41 | The file read is `uploads/<caller>/<last URL segment>`; `.` or an empty segment stays in that folder, and `..` reaches only the uploads root, which is a directory |
| Analyze.UploadPathShape | backend/routes/analyze.js:40-41 | The uploads folder plus the caller's id, plus a plain name |
| Analyze.ServerCannotReadOthersUploads | backend/routes/analyze.js:40-41 | Presenting another user's upload URL never reaches that user's file |
| Analyze.ServerUploadRoundTrip | backend/routes/upload.js:10-62 | For the same caller, the URL that upload returns resolves to exactly the path the upload wrote |
| Analyze.ServerUrlRoundTrip | backend/routes/upload.js:62 | The basename of the upload URL is the stored name, and the analyze path for it is the upload folder joined with that name |
| Analyze.UploadFolderJoin | backend/routes/analyze.js:41 | Joining a name onto the printed upload folder is joining it with the folder's parts, on both handlers |
| Analyze.ServerAnalyzeFindsUpload | backend/routes/analyze.js:40-55 | After an upload, analysing its URL as the same caller never yields 404 |
| Analyze.ServerFindsFile | backend/routes/analyze.js:45-55 | A well-formed request whose file is in the caller's folder is never a 404 |
| Analyze.ServerBodyReadsImage | backend/routes/analyze.js:20-55 | Non-empty string fields, a working database and the file present take the server up to the AI call |
| Analyze.BodyOfFields | backend/routes/analyze.js:20-29 | A body with a non-empty string URL and a non-empty string title passes the field checks |
| Analyze.ServerPastReadFailsWith500 | backend/routes/analyze.js:86-200 | Once the image is read, the only possible failure is a 500 |
| Analyze.ServerIgnoresOcr | backend/routes/analyze.js:59-87 | The outcome is the same whatever the recognition engine did: its result never reaches the AI call or the save |
| Analyze.AfterReadIgnoresEngine | backend/routes/analyze.js:86-178 | The steps after the read do not depend on the recognition engine |
| Analyze.ServerDecodeFailureIs500 | backend/routes/analyze.js:142-154 | A span that does not decode is a 500 with nothing saved |
| Analyze.ServerEmptyReplyIs500 | backend/routes/analyze.js:131-141 | An empty AI reply is a 500 with nothing saved, because its fallback summary is empty |
| Analyze.EmptyReplyFails | backend/routes/analyze.js:131-141 | After the read, an empty reply ends in a 500 |
| Analyze.ServerSeverityConflictIs500 | backend/routes/analyze.js:127 | A decoded severity outside the enum is a 500 with nothing saved |
| Analyze.ServerEmptyTitleIs400 | backend/routes/analyze.js:23-29 | An empty title is a 400, whatever the database, the files or the AI |
| Analyze.ServerSavesWrappedFindings | backend/routes/analyze.js:112-178 | A bare-string `keyFindings` with a valid severity is saved, with the string wrapped in a list and the severity kept |
| Analyze.ServerReachesSave | backend/routes/analyze.js:102-178 | Past the image read, a reply that parses goes straight to the save |
| Analyze.SavesAnalysis | backend/routes/analyze.js:169-178 | A document that validates is saved with its cast as the analysis, given a string title with text and a working write |
| Analyze.ServerSaveKeepsIdsUnique | backend/routes/analyze.js:169-178 | With a fresh id, report ids stay unique |
| Analyze.AiContext | src/app/api/analyze/route.ts:71-74 | The text given to the AI is empty unless recognition succeeded with some text, and is then the cleaned text; it is always in the cleaned shape |
| Analyze.NextAfterRead | src/app/api/analyze/route.ts:90-137 | A failed AI call is a 500; any reply parses (to a fallback at worst) and goes to the save |
| Analyze.NextAnalyze | src/app/api/analyze/route.ts:10-163 | 401 before the body is read; a body that does not parse, a `null` body or an `imageUrl` whose `substring` throws is a 500; missing fields are a 400, and a 400 means fields were missing; a disconnected database after the field checks is a 500; 404 exactly when the URL ends in a slash or `public/<url>` is not a file; every error leaves the store unchanged; past the read, the AI sees the recognition context and its reply goes to the save |
| Analyze.NextSavedReport | src/app/api/analyze/route.ts:128-137 | A saved report has the caller's id, the unchanged URL and the trimmed title, and its analysis is the cast of the parsed reply |
| Analyze.NextUploadRoundTrip | src/app/api/upload/route.ts:42-56 | `public` joined with the returned URL is the path the upload wrote |
| Analyze.NextUrlRoundTrip | src/app/api/analyze/route.ts:47 | The path for the upload URL is the caller's upload folder joined with the stored name |
| Analyze.NextReadsAnyUsersUpload | src/app/api/analyze/route.ts:47-60 | Any signed-in caller presenting another user's upload URL gets past the read: it is never a 404 |
| Analyze.NextFindsFile | src/app/api/analyze/route.ts:47-60 | A well-formed request whose URL has no trailing slash and whose file is under `public` is never a 404 |
| Analyze.NextDecodeFailureSaves | src/app/api/analyze/route.ts:114-137 | On Next.js a span that does not decode is saved with the text fallback, whose summary is the whole reply |
| Analyze.NextFailedOcrGivesEmptyContext | src/app/api/analyze/route.ts:71-74 | After a failed recognition the AI is given empty text |

## Left out

- Text recognition itself (Tesseract) and the confidence value: the engine's result is a parameter, either recognised text with a confidence or a failure message.
- The AI clients: the reply is an optional string parameter, where `None` is a failed call. The prompts are not modelled.
- JWT signing and verification: the verifier is an abstract total function with an optional result, which is how `verifyToken` behaves because it catches every error.
- The database connection, Mongoose query execution and ObjectId casting: the store is an in-memory sequence and the connection is a `dbOk` flag. An id that is not a valid ObjectId makes Mongoose throw, which the routes turn into a 500; in the model such an id simply matches nothing and gives a 404.
- The file system and multer: the readable files are a set of paths, a write is a flag, and multer's storage failure is a parameter. Directory creation is not modelled.
- `path.join` is modelled for an absolute first part, which is how both handlers use it; relative roots are not modelled.
- The order of reports with equal `createdAt` values in a list: the model uses one stable order and proves only the newest-first property and the 50-item cap.
- `select('-chatHistory')` in the Next.js list: reports have no chat history in this model.
- `updatedAt` changes on later updates: no route updates a report, so only its value at creation (the save time) is modelled.
- JavaScript strings are sequences of characters with no UTF-16 surrogate pairs. `toLowerCase` is modelled for ASCII letters only. `\s` and `trim` use one shared white-space set.
- `parseInt` is modelled for decimal text only: no `0x` prefix and no numbers beyond the digits.
- `Math.random`, `Date.now` and the new report id are parameters.
- `formatFileSize` and `cn` in `src/lib/utils.ts`: floating-point formatting and a class-name helper.
- The diagnostics and test routes, `backend/server.js`, `frontend/next.config.js`, the React pages and components, and the browser-side API client.
- The server's text-recognition result and its keyword check are computed but never used afterwards. The model keeps the OCR functions but proves that the handler's outcome does not depend on the engine (`Analyze.ServerIgnoresOcr`).
- `src/lib/ocr.ts` is not part of this model. The Next.js handler is modelled with the same cleaning and extraction functions as the server's `backend/lib/ocr.js`.
- Mongoose casting is modelled narrowly: a string path accepts a string, a number or a boolean, and a list path accepts an array or wraps a single castable value. Other casts, such as dates or objects with `toString`, are not modelled.
- JSON numbers are kept as their JavaScript string rendering rather than as floating-point values. A number is truthy unless it renders as `0`.
- Schema.CastString: does not state what a number or a boolean casts to beyond the shapes above, because its text depends on JavaScript's number formatting, which is not modelled. It also treats `null` as a cast failure, whereas Mongoose's string cast passes `null` through and an optional path stores it (a required path such as `summary` still rejects it). A reply carrying `null` in an optional field is therefore a 500 in the model where the code saves it.
- Schema.CastAll: a `null` element fails the whole list here, whereas Mongoose stores it as a `null` entry. For example, `keyFindings: ["a", null]` is a 500 in the model on both handlers, while the code saves it.
- Schema.StringList: a list field whose value is `null` fails here, whereas Mongoose keeps `null` for the path. The server's normaliser has already replaced such a value by its placeholder, so the difference shows on Next.js only.
- Schema.SeverityPath: a `null` severity fails here. Mongoose applies the `medium` default only to an absent value, not to `null`, and how its enum check treats `null` is not modelled. The server's normaliser replaces a `null` severity by `medium`, so this too shows on Next.js only.
- Schema.CastAnalysis: inherits the `null` cases above. Its if-and-only-if is exact for documents with no `null` in an optional field, and it rejects documents that the code would store with `null` in them.
